/** The simulator as the C program keeps it: fixed global arrays updated in
    place by loops. Each method is proved against the value-level functions of
    `PageTables`, `Policies` and `Simulation`, with `Globals()` reading the
    arrays back as a `State`. */
module VirtMem {
  import opened Types
  import opened PageTables
  import opened Policies
  import opened ReferenceStream
  import opened Simulation

  /** The globals of the program: `pageTable`, `frameToPage`, `fifoQueue` and
      `fifoIndex`, `lruTimestamps` and `lruFrameCount`. */
  class Simulator {
    const pageTable: array<int>
    const frameToPage: array<int>
    const fifoQueue: array<int>
    var fifoIndex: int
    const lruTimestamps: array<int>
    var lruFrameCount: int

    /** The arrays have their declared sizes, are distinct, and hold a
        well-formed state. */
    ghost predicate Valid()
      reads this, pageTable, frameToPage, fifoQueue, lruTimestamps
    {
      && pageTable.Length == MaxPages && frameToPage.Length == MaxFrames
      && fifoQueue.Length == QueueSlots && lruTimestamps.Length == StampSlots
      && pageTable != frameToPage && pageTable != fifoQueue && pageTable != lruTimestamps
      && frameToPage != fifoQueue && frameToPage != lruTimestamps && fifoQueue != lruTimestamps
      && WellFormed(Globals())
    }

    /** `a` is none of the global arrays. */
    predicate Apart(a: array<int>)
    {
      a != pageTable && a != frameToPage && a != fifoQueue && a != lruTimestamps
    }

    /** The contents of the globals. */
    ghost function Globals(): State
      reads this, pageTable, frameToPage, fifoQueue, lruTimestamps
    {
      State(Tables(pageTable[..], frameToPage[..]),
            FifoQueue(fifoQueue[..], fifoIndex),
            LruTable(lruTimestamps[..], lruFrameCount))
    }

    /** The zero-initialised globals at program start. */
    constructor()
      ensures Valid() && Globals() == Initial()
      ensures fresh(pageTable) && fresh(frameToPage) && fresh(fifoQueue) && fresh(lruTimestamps)
    {
      pageTable := new int[MaxPages](_ => 0);
      frameToPage := new int[MaxFrames](_ => 0);
      fifoQueue := new int[QueueSlots](_ => 0);
      fifoIndex := 0;
      lruTimestamps := new int[StampSlots](_ => 0);
      lruFrameCount := 0;
      new;
      assert pageTable[..] == seq(MaxPages, _ => 0);
      assert frameToPage[..] == seq(MaxFrames, _ => 0);
      assert fifoQueue[..] == seq(QueueSlots, _ => 0);
      assert lruTimestamps[..] == seq(StampSlots, _ => 0);
    }

    /** `initFIFO` (lines 13-15). */
    method InitFIFO()
      requires Valid()
      modifies fifoQueue
      ensures Valid() && Globals() == old(Globals()).(fifo := FifoInit(old(Globals()).fifo))
    {
      for i := 0 to QueueSlots
        invariant forall j :: 0 <= j < i ==> fifoQueue[j] == Unmapped
      {
        fifoQueue[i] := Unmapped;
      }
      assert fifoQueue[..] == Blank;
    }

    /** `addToFIFO` (lines 17-20). */
    method AddToFIFO(frame: int)
      requires Valid()
      modifies this, fifoQueue
      ensures Valid() && Globals() == old(Globals()).(fifo := FifoAdd(old(Globals()).fifo, frame))
    {
      fifoQueue[fifoIndex] := frame;
      fifoIndex := (fifoIndex + 1) % QueueSlots;
    }

    /** `replacePageFIFO` (lines 22-24). */
    method ReplacePageFIFO() returns (frame: int)
      requires Valid()
      ensures frame == FifoVictim(Globals().fifo)
    {
      frame := fifoQueue[fifoIndex];
    }

    /** `initLRU` (lines 26-28). */
    method InitLRU()
      requires Valid()
      modifies lruTimestamps
      ensures Valid() && Globals() == old(Globals()).(lru := LruInit(old(Globals()).lru))
    {
      for i := 0 to StampSlots
        invariant forall j :: 0 <= j < i ==> lruTimestamps[j] == Unmapped
      {
        lruTimestamps[i] := Unmapped;
      }
      assert lruTimestamps[..] == seq(StampSlots, _ => Unmapped);
    }

    /** `updateLRUTimestamp` (lines 30-32); the slot must lie inside the array. */
    method UpdateLRUTimestamp(frame: int)
      requires Valid() && 0 <= frame < StampSlots
      modifies this, lruTimestamps
      ensures Valid() && Globals() == old(Globals()).(lru := LruTouch(old(Globals()).lru, frame))
    {
      lruFrameCount := lruFrameCount + 1;
      lruTimestamps[frame] := lruFrameCount;
    }

    /** `replacePageLRU` (lines 34-44): the scan over all 500 slots returns a
        slot with the smallest stamp, the lowest such slot. */
    method ReplacePageLRU() returns (minFrame: int)
      requires Valid()
      ensures minFrame == LruVictim(Globals().lru)
      ensures 0 <= minFrame < StampSlots
      ensures forall j :: 0 <= j < StampSlots ==> lruTimestamps[minFrame] <= lruTimestamps[j]
      ensures forall j :: 0 <= j < minFrame ==> lruTimestamps[minFrame] < lruTimestamps[j]
    {
      minFrame := 0;
      var minTimestamp := lruTimestamps[0];
      for i := 1 to StampSlots
        invariant 0 <= minFrame < i && minTimestamp == lruTimestamps[minFrame]
        invariant minFrame == LowestMin(lruTimestamps[..i])
      {
        assert lruTimestamps[..i + 1][..i] == lruTimestamps[..i];
        if lruTimestamps[i] < minTimestamp {
          minTimestamp := lruTimestamps[i];
          minFrame := i;
        }
      }
      assert lruTimestamps[..StampSlots] == lruTimestamps[..];
    }

    /** `initPageTable` (lines 50-53). */
    method InitPageTable(npages: nat, nframes: nat)
      requires Valid() && npages <= MaxPages && nframes <= MaxFrames
      modifies pageTable, frameToPage
      ensures Valid()
      ensures Globals() == old(Globals()).(tables := InitTables(old(Globals()).tables, npages, nframes))
    {
      for i := 0 to npages
        invariant forall p :: 0 <= p < MaxPages ==>
          pageTable[p] == if p < i then Unmapped else old(pageTable[p])
        invariant unchanged(frameToPage)
      {
        pageTable[i] := Unmapped;
      }
      for i := 0 to nframes
        invariant forall p :: 0 <= p < MaxPages ==>
          pageTable[p] == if p < npages then Unmapped else old(pageTable[p])
        invariant forall f :: 0 <= f < MaxFrames ==>
          frameToPage[f] == if f < i then Unmapped else old(frameToPage[f])
      {
        frameToPage[i] := Unmapped;
      }
      ghost var expected := InitTables(old(Globals()).tables, npages, nframes);
      assert pageTable[..] == expected.pages;
      assert frameToPage[..] == expected.frames;
    }

    /** `countEmptyFrames` (lines 55-63). */
    method CountEmptyFrames(nframes: nat) returns (count: nat)
      requires Valid() && nframes <= MaxFrames
      ensures count == EmptyCount(Globals().tables.frames, nframes)
    {
      count := 0;
      for i := 0 to nframes
        invariant count == EmptyCount(frameToPage[..], i)
      {
        if frameToPage[i] == Unmapped {
          count := count + 1;
        }
      }
    }

    /** `handlePageFault` (lines 65-87): take the lowest free frame, or ask the
        policy for a victim and unmap the victim's page; then install the page.
        Returns the frame used. */
    method HandlePageFault(page: int, nframes: nat, alg: Algorithm, rnd: nat) returns (r: Outcome<int>)
      requires Valid() && 0 <= page < MaxPages && nframes <= MaxFrames
      modifies pageTable, frameToPage
      ensures Valid()
      ensures r.Ok? <==> Fault(old(Globals()), page, nframes, alg, rnd).Ok?
      ensures r.Ok? ==>
        && r.value == Fault(old(Globals()), page, nframes, alg, rnd).value.frame
        && Globals() == old(Globals()).(tables := Fault(old(Globals()), page, nframes, alg, rnd).value.tables)
      ensures !r.Ok? ==> Fault(old(Globals()), page, nframes, alg, rnd) == r.PropagateFailure()
    {
      ghost var s := Globals();
      ghost var expected := Fault(s, page, nframes, alg, rnd);
      var frameToUse := Unmapped;
      var i := 0;
      while i < nframes
        invariant 0 <= i <= nframes
        invariant FirstEmptyFrom(frameToPage[..], i, nframes) == FirstEmpty(frameToPage[..], nframes)
        invariant frameToUse == Unmapped
      {
        if frameToPage[i] == Unmapped {
          frameToUse := i;
          break;
        }
        i := i + 1;
      }
      assert frameToUse == FirstEmpty(s.tables.frames, nframes);
      if frameToUse == Unmapped {
        if alg == Rand && nframes == 0 {
          return DivisionByZero;
        }
        match alg {
          case Rand => frameToUse := RandVictim(rnd, nframes);
          case Fifo => frameToUse := ReplacePageFIFO();
          case Lru => frameToUse := ReplacePageLRU();
          case OtherAlgorithm =>
        }
        assert expected == HandleFault(s.tables, page, nframes, frameToUse);
        if !(0 <= frameToUse < MaxFrames) {
          return OutOfBounds(FrameToPageArray, frameToUse);
        }
        var pageToEvict := frameToPage[frameToUse];
        if !(0 <= pageToEvict < MaxPages) {
          return OutOfBounds(PageTableArray, pageToEvict);
        }
        pageTable[pageToEvict] := Unmapped;
        assert expected == Ok(Placement(frameToUse, pageToEvict,
          Install(Tables(s.tables.pages[pageToEvict := Unmapped], s.tables.frames), page, frameToUse)));
      } else {
        assert expected == Ok(Placement(frameToUse, Unmapped, Install(s.tables, page, frameToUse)));
      }
      frameToPage[frameToUse] := page;
      pageTable[page] := frameToUse;
      r := Ok(frameToUse);
    }

    /** One iteration of the replay loop in `main` (lines 132-141). Returns
        whether the reference faulted. */
    method Reference(page: int, nframes: nat, alg: Algorithm, rnd: nat) returns (r: Outcome<bool>)
      requires Valid() && 0 <= page < MaxPages && nframes <= MaxFrames
      modifies this, pageTable, frameToPage, fifoQueue, lruTimestamps
      ensures Valid()
      ensures r.Ok? <==> Access(old(Globals()), page, nframes, alg, rnd).Ok?
      ensures r.Ok? ==>
        && r.value == Access(old(Globals()), page, nframes, alg, rnd).value.fault
        && Globals() == Access(old(Globals()), page, nframes, alg, rnd).value.state
      ensures !r.Ok? ==> Access(old(Globals()), page, nframes, alg, rnd) == r.PropagateFailure()
    {
      if pageTable[page] != Unmapped {
        return Ok(false);
      }
      var placed := HandlePageFault(page, nframes, alg, rnd);
      if !placed.Ok? {
        return placed.PropagateFailure();
      }
      match alg {
        case Fifo => AddToFIFO(page);
        case Lru =>
          if page >= StampSlots {
            return OutOfBounds(LruTimestampsArray, page);
          }
          UpdateLRUTimestamp(page);
        case _ =>
      }
      r := Ok(true);
    }

    /** The replay loop of `main` (lines 130-142) over the generated stream,
        reference `i` drawing `rnd[i]` should the random policy need it.
        Returns the number of page faults. */
    method ReplayReferences(references: array<int>, nframes: nat, alg: Algorithm, rnd: seq<nat>)
      returns (r: Outcome<nat>)
      requires Valid() && nframes <= MaxFrames && |rnd| == references.Length
      requires PagesFit(references[..]) && Apart(references)
      modifies this, pageTable, frameToPage, fifoQueue, lruTimestamps
      ensures Valid()
      ensures r.Ok? <==> Replay(old(Globals()), old(references[..]), nframes, alg, rnd).Ok?
      ensures r.Ok? ==>
        && r.value == Replay(old(Globals()), old(references[..]), nframes, alg, rnd).value.faults
        && Globals() == Replay(old(Globals()), old(references[..]), nframes, alg, rnd).value.state
      ensures !r.Ok? ==> Replay(old(Globals()), old(references[..]), nframes, alg, rnd) == r.PropagateFailure()
    {
      ghost var s := Globals();
      ghost var refs := references[..];
      var pageFaults := 0;
      for i := 0 to references.Length
        invariant Valid() && references[..] == refs
        invariant Replay(s, refs[..i], nframes, alg, rnd[..i]) == Ok(Replayed(pageFaults, Globals()))
      {
        ReplayLoopStep(s, refs, nframes, alg, rnd, i, pageFaults, Globals());
        var step := Reference(references[i], nframes, alg, rnd[i]);
        if !step.Ok? {
          return step.PropagateFailure();
        }
        if step.value {
          pageFaults := pageFaults + 1;
        }
      }
      assert refs[..references.Length] == refs && rnd[..references.Length] == rnd;
      r := Ok(pageFaults);
    }

    /** `main` after argument parsing (lines 115-149): allocate and generate the
        stream, set up the tables and the chosen policy, replay, and count the
        empty frames. Returns the two printed numbers. */
    method Simulate(c: Config, genRnd: seq<nat>, evictRnd: seq<nat>) returns (r: Outcome<Report>)
      requires Valid() && Fits(c) && |genRnd| == c.nrefs && |evictRnd| == c.nrefs
      modifies this, pageTable, frameToPage, fifoQueue, lruTimestamps
      ensures Valid()
      ensures r == Run(old(Globals()), c, genRnd, evictRnd)
      ensures r.Ok? ==> (Globals() ==
        Replay(Setup(old(Globals()), c), Generate(c.npages, c.locality, genRnd), c.nframes, c.algorithm, evictRnd).value.state)
    {
      if c.npages == 0 && c.nrefs > 0 {
        return DivisionByZero;
      }
      var references := new int[c.nrefs];
      GeneratePageReferences(references, c.npages, c.locality, genRnd);
      InitPageTable(c.npages, c.nframes);
      if c.algorithm == Fifo {
        InitFIFO();
      } else if c.algorithm == Lru {
        InitLRU();
      }
      assert Globals() == Setup(old(Globals()), c);
      var pageFaults := ReplayReferences(references, c.nframes, c.algorithm, evictRnd);
      if !pageFaults.Ok? {
        return pageFaults.PropagateFailure();
      }
      var emptyFrames := CountEmptyFrames(c.nframes);
      r := Ok(Report(pageFaults.value, emptyFrames));
    }
  }
}
