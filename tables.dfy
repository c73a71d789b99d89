/** The page table and the frame table: `pageTable` maps a page to the frame
    holding it and `frameToPage` maps a frame to the page it holds, -1 meaning
    unmapped or empty. This module gives their contents as values and specifies
    the table work of `initPageTable`, `countEmptyFrames` and `handlePageFault`. */
module PageTables {
  import opened Types

  /** The contents of `pageTable` and `frameToPage`. */
  datatype Tables = Tables(pages: seq<int>, frames: seq<int>)

  predicate Sized(t: Tables)
  {
    |t.pages| == MaxPages && |t.frames| == MaxFrames
  }

  /** The two maps are inverse to each other on pages `[0, npages)` and frames
      `[0, nframes)`: a mapped page names a frame in range, an occupied frame
      names a page in range, and `pages[p] == f` exactly when `frames[f] == p`. */
  ghost predicate Consistent(t: Tables, npages: nat, nframes: nat)
  {
    && Sized(t) && npages <= MaxPages && nframes <= MaxFrames
    && (forall p :: 0 <= p < npages ==> t.pages[p] == Unmapped || 0 <= t.pages[p] < nframes)
    && (forall f :: 0 <= f < nframes ==> t.frames[f] == Unmapped || 0 <= t.frames[f] < npages)
    && (forall p, f :: 0 <= p < npages && 0 <= f < nframes ==> (t.pages[p] == f <==> t.frames[f] == p))
  }

  /** The lowest frame in `[from, nframes)` that is empty, or -1 if there is none:
      the first-free scan of the fault handler. */
  function FirstEmptyFrom(frames: seq<int>, from: nat, nframes: nat): (r: int)
    requires from <= nframes <= |frames|
    ensures r == Unmapped <==> forall f :: from <= f < nframes ==> frames[f] != Unmapped
    ensures r != Unmapped ==> from <= r < nframes && frames[r] == Unmapped
    ensures r != Unmapped ==> forall f :: from <= f < r ==> frames[f] != Unmapped
    decreases nframes - from
  {
    if from == nframes then Unmapped
    else if frames[from] == Unmapped then from
    else FirstEmptyFrom(frames, from + 1, nframes)
  }

  function FirstEmpty(frames: seq<int>, nframes: nat): int
    requires nframes <= |frames|
  {
    FirstEmptyFrom(frames, 0, nframes)
  }

  /** The number of empty frames among the first `n`: what `countEmptyFrames` counts. */
  function EmptyCount(frames: seq<int>, n: nat): (c: nat)
    requires n <= |frames|
    ensures c <= n
    ensures c == 0 <==> forall f :: 0 <= f < n ==> frames[f] != Unmapped
    ensures c == n <==> forall f :: 0 <= f < n ==> frames[f] == Unmapped
  {
    if n == 0 then 0
    else EmptyCount(frames, n - 1) + (if frames[n - 1] == Unmapped then 1 else 0)
  }

  ghost function EmptySet(frames: seq<int>, n: nat): set<int>
    requires n <= |frames|
  {
    set f | 0 <= f < n && frames[f] == Unmapped
  }

  /** The count agrees with the size of the set of empty frames. */
  lemma {:induction false} EmptyCountIsCardinality(frames: seq<int>, n: nat)
    requires n <= |frames|
    ensures EmptyCount(frames, n) == |EmptySet(frames, n)|
  {
    if n > 0 {
      EmptyCountIsCardinality(frames, n - 1);
      if frames[n - 1] == Unmapped {
        assert EmptySet(frames, n) == EmptySet(frames, n - 1) + {n - 1};
      } else {
        assert EmptySet(frames, n) == EmptySet(frames, n - 1);
      }
    }
  }

  /** Writing one frame changes the empty count by what that frame was and became. */
  lemma {:induction false} EmptyCountUpdate(frames: seq<int>, n: nat, i: int, v: int)
    requires n <= |frames| && 0 <= i < |frames|
    ensures EmptyCount(frames[i := v], n)
         == EmptyCount(frames, n)
            - (if i < n && frames[i] == Unmapped then 1 else 0)
            + (if i < n && v == Unmapped then 1 else 0)
  {
    if n > 0 {
      EmptyCountUpdate(frames, n - 1, i, v);
    }
  }

  /** `initPageTable`: the first `npages` pages become unmapped and the first
      `nframes` frames empty; every other entry keeps its value. */
  function InitTables(t: Tables, npages: nat, nframes: nat): (r: Tables)
    requires Sized(t) && npages <= MaxPages && nframes <= MaxFrames
    ensures Sized(r)
    ensures forall p :: 0 <= p < MaxPages ==> r.pages[p] == if p < npages then Unmapped else t.pages[p]
    ensures forall f :: 0 <= f < MaxFrames ==> r.frames[f] == if f < nframes then Unmapped else t.frames[f]
  {
    Tables(seq(MaxPages, p requires 0 <= p < MaxPages => if p < npages then Unmapped else t.pages[p]),
           seq(MaxFrames, f requires 0 <= f < MaxFrames => if f < nframes then Unmapped else t.frames[f]))
  }

  /** Freshly initialised tables are consistent and every frame is empty. */
  lemma InitTablesEmpty(t: Tables, npages: nat, nframes: nat)
    requires Sized(t) && npages <= MaxPages && nframes <= MaxFrames
    ensures Consistent(InitTables(t, npages, nframes), npages, nframes)
    ensures EmptyCount(InitTables(t, npages, nframes).frames, nframes) == nframes
  {
  }

  /** The last two assignments of `handlePageFault`: frame `frame` now holds `page`. */
  function Install(t: Tables, page: int, frame: int): (r: Tables)
    requires Sized(t) && 0 <= page < MaxPages && 0 <= frame < MaxFrames
    ensures Sized(r) && r.pages[page] == frame && r.frames[frame] == page
    ensures forall p :: 0 <= p < MaxPages && p != page ==> r.pages[p] == t.pages[p]
    ensures forall f :: 0 <= f < MaxFrames && f != frame ==> r.frames[f] == t.frames[f]
  {
    Tables(t.pages[page := frame], t.frames[frame := page])
  }

  /** Where a faulting page went: its frame, the page evicted from that frame
      (-1 when the frame was free), and the tables afterwards. */
  datatype Placement = Placement(frame: int, evicted: int, tables: Tables)

  /** The table work of `handlePageFault` for a page, given the victim the policy
      would name if no frame below `nframes` is free. The free frame, when there is
      one, is taken and the victim is ignored; otherwise the victim's page is
      unmapped and the victim frame reused, and a victim or victim's page outside
      the C arrays is undefined behaviour. */
  function HandleFault(t: Tables, page: int, nframes: nat, victim: int): (r: Outcome<Placement>)
    requires Sized(t) && 0 <= page < MaxPages && nframes <= MaxFrames
    ensures r.Ok? ==> var pl := r.value;
      && Sized(pl.tables) && 0 <= pl.frame < MaxFrames
      && pl.tables.frames[pl.frame] == page && pl.tables.pages[page] == pl.frame
      && (forall f :: 0 <= f < MaxFrames && f != pl.frame ==> pl.tables.frames[f] == t.frames[f])
      && (forall p :: 0 <= p < MaxPages && p != page && p != pl.evicted ==> pl.tables.pages[p] == t.pages[p])
    // the lowest free frame is used and nothing is evicted
    ensures FirstEmpty(t.frames, nframes) != Unmapped ==>
      r.Ok? && r.value.frame == FirstEmpty(t.frames, nframes) && r.value.evicted == Unmapped
    // eviction only when every frame below nframes is occupied; the evicted page is unmapped
    ensures r.Ok? && r.value.evicted != Unmapped ==>
      && (forall f :: 0 <= f < nframes ==> t.frames[f] != Unmapped)
      && r.value.frame == victim && r.value.evicted == t.frames[victim]
      && 0 <= r.value.evicted < MaxPages
      && (r.value.evicted != page ==> r.value.tables.pages[r.value.evicted] == Unmapped)
    ensures FirstEmpty(t.frames, nframes) == Unmapped && 0 <= victim < nframes && 0 <= t.frames[victim] < MaxPages ==>
      r.Ok? && r.value.frame == victim && r.value.evicted == t.frames[victim]
    ensures !r.Ok? ==> r.OutOfBounds? && FirstEmpty(t.frames, nframes) == Unmapped
    // with no free frame the outcome is decided by the victim and its occupant alone
    ensures FirstEmpty(t.frames, nframes) == Unmapped ==>
      && (r.Ok? <==> 0 <= victim < MaxFrames && 0 <= t.frames[victim] < MaxPages)
      && (r.Ok? ==> r.value.frame == victim && r.value.evicted == t.frames[victim])
      && (!(0 <= victim < MaxFrames) ==> r == OutOfBounds(FrameToPageArray, victim))
      && (0 <= victim < MaxFrames && !(0 <= t.frames[victim] < MaxPages) ==>
            r == OutOfBounds(PageTableArray, t.frames[victim]))
  {
    var free := FirstEmpty(t.frames, nframes);
    if free != Unmapped then
      Ok(Placement(free, Unmapped, Install(t, page, free)))
    else if !(0 <= victim < MaxFrames) then
      OutOfBounds(FrameToPageArray, victim)
    else
      var evicted := t.frames[victim];
      if !(0 <= evicted < MaxPages) then
        OutOfBounds(PageTableArray, evicted)
      else
        Ok(Placement(victim, evicted, Install(Tables(t.pages[evicted := Unmapped], t.frames), page, victim)))
  }

  /** Given a victim in `[0, nframes)` and a page that was unmapped, a fault keeps
      the two maps inverse to each other. */
  lemma FaultKeepsConsistent(t: Tables, page: int, npages: nat, nframes: nat, victim: int)
    requires Consistent(t, npages, nframes) && 0 <= page < npages && t.pages[page] == Unmapped
    requires 0 <= victim < nframes
    ensures HandleFault(t, page, nframes, victim).Ok?
    ensures Consistent(HandleFault(t, page, nframes, victim).value.tables, npages, nframes)
  {
    var pl := HandleFault(t, page, nframes, victim).value;
    var u := pl.tables;
    assert 0 <= pl.frame < nframes;
    if pl.evicted != Unmapped {
      assert 0 <= pl.evicted < npages && t.pages[pl.evicted] == pl.frame;
    }
    forall p, f | 0 <= p < npages && 0 <= f < nframes
      ensures u.pages[p] == f <==> u.frames[f] == p
    {
      if p != page && p != pl.evicted && f != pl.frame {
        assert u.pages[p] == t.pages[p] && u.frames[f] == t.frames[f];
      }
    }
  }

  /** A fault either fills an empty frame (the empty count drops by one) or
      replaces an occupant (the count is unchanged). */
  lemma FaultEmptyCount(t: Tables, page: int, nframes: nat, victim: int)
    requires Sized(t) && 0 <= page < MaxPages && nframes <= MaxFrames
    requires HandleFault(t, page, nframes, victim).Ok?
    ensures EmptyCount(HandleFault(t, page, nframes, victim).value.tables.frames, nframes)
         == EmptyCount(t.frames, nframes) - (if FirstEmpty(t.frames, nframes) != Unmapped then 1 else 0)
  {
    var pl := HandleFault(t, page, nframes, victim).value;
    assert pl.tables.frames == t.frames[pl.frame := page];
    EmptyCountUpdate(t.frames, nframes, pl.frame, page);
  }

  /** The pages mapped to a frame below `n`. */
  ghost function MappedBelow(t: Tables, npages: nat, n: int): set<int>
    requires Sized(t) && npages <= MaxPages
  {
    set p | 0 <= p < npages && 0 <= t.pages[p] < n
  }

  /** Capacity: on consistent tables the number of occupied frames equals the
      number of mapped pages, so it is at most both `nframes` and `npages`. */
  lemma OccupiedEqualsMapped(t: Tables, npages: nat, nframes: nat)
    requires Consistent(t, npages, nframes)
    ensures |set p | 0 <= p < npages && t.pages[p] != Unmapped| == nframes - EmptyCount(t.frames, nframes)
    ensures nframes - EmptyCount(t.frames, nframes) <= npages
  {
    MappedBelowCount(t, npages, nframes, nframes);
    assert (set p | 0 <= p < npages && t.pages[p] != Unmapped) == MappedBelow(t, npages, nframes);
    BoundedSetSize(MappedBelow(t, npages, nframes), npages);
  }

  lemma {:induction false} MappedBelowCount(t: Tables, npages: nat, nframes: nat, n: nat)
    requires Consistent(t, npages, nframes) && n <= nframes
    ensures |MappedBelow(t, npages, n)| == n - EmptyCount(t.frames, n)
  {
    if n == 0 {
      assert MappedBelow(t, npages, 0) == {};
    } else {
      MappedBelowCount(t, npages, nframes, n - 1);
      var f := n - 1;
      if t.frames[f] == Unmapped {
        assert MappedBelow(t, npages, n) == MappedBelow(t, npages, f);
      } else {
        var q := t.frames[f];
        assert t.pages[q] == f;
        assert MappedBelow(t, npages, n) == MappedBelow(t, npages, f) + {q};
        assert q !in MappedBelow(t, npages, f);
      }
    }
  }

  /** A set of naturals below `n` has at most `n` elements. */
  lemma {:induction false} BoundedSetSize(s: set<int>, n: nat)
    requires forall x :: x in s ==> 0 <= x < n
    ensures |s| <= n
  {
    if n > 0 {
      BoundedSetSize(s - {n - 1}, n - 1);
      assert s <= (s - {n - 1}) + {n - 1};
    } else {
      assert forall x :: x !in s;
      assert s == {};
    }
  }
}
