/**
 Data parallelism over contiguous chunks of 0 .. range - 1.

 Workers run the items of their chunks in order, interleaved in any way; an item writes its own
 row of a shared flat buffer or fails. A failing item ends its chunk, which then clears the
 shared success flag in a separate step. The outcome does not depend on how the range was cut
 or on how the workers were interleaved.
 */
module ChunkedParallel {
  import opened Arith
  import opened FlatRows
  import opened Wrappers

  datatype Chunk = Chunk(start: nat, count: nat)

  /** What item t computes: a row, or a failure. */
  type Item<T> = nat -> Option<seq<T>>

  // ---- How the range is cut ----

  /** Consecutive chunks that cover lo .. hi - 1. */
  predicate Partition(chunks: seq<Chunk>, lo: nat, hi: nat)
    decreases |chunks|
  {
    if chunks == [] then lo == hi
    else chunks[0].start == lo && lo + chunks[0].count <= hi && Partition(chunks[1..], lo + chunks[0].count, hi)
  }

  function DivCeil(x: nat, y: nat): nat
    requires y > 0
  {
    if x % y == 0 then x / y else x / y + 1
  }

  /** Chunks of `tile` items from `start` on, the last one possibly shorter. */
  function Tiles(start: nat, range: nat, tile: nat): seq<Chunk>
    requires tile > 0 && start <= range
    decreases range - start
  {
    if start == range then []
    else
      var count := Min(tile, range - start);
      [Chunk(start, count)] + Tiles(start + count, range, tile)
  }

  /** The calls made for a range: `workers` is None when there is no thread pool or serial runs are forced. */
  function Plan(range: nat, threshold: nat, workers: Option<nat>): seq<Chunk> {
    if range == 0 then []
    else if range >= threshold && workers.Some? && Min(workers.value, range) > 1 then
      Tiles(0, range, DivCeil(range, Min(workers.value, range)))
    else [Chunk(0, range)]
  }

  lemma OneMoreTile(n: nat, tile: nat)
    ensures (n + 1) * tile == n * tile + tile
  {
  }

  lemma {:induction false} TilesPartition(start: nat, range: nat, tile: nat)
    requires tile > 0 && start <= range
    ensures Partition(Tiles(start, range, tile), start, range)
    ensures |Tiles(start, range, tile)| * tile < range - start + tile
    decreases range - start
  {
    if start == range {
    } else {
      var count := Min(tile, range - start);
      var rest := Tiles(start + count, range, tile);
      TilesPartition(start + count, range, tile);
      assert Tiles(start, range, tile)[1..] == rest;
      OneMoreTile(|rest|, tile);
      if count < tile {
        assert rest == [];
      }
    }
  }

  lemma FewTiles(range: nat, workers: nat, tiles: nat)
    requires workers > 0 && tiles * DivCeil(range, workers) < range + DivCeil(range, workers)
    ensures tiles <= workers
  {
    var tile := DivCeil(range, workers);
    assert workers * tile >= range by {
      assert range == workers * (range / workers) + range % workers;
      MultipleGap(workers, range / workers, tile);
    }
    MultipleGap(tile, workers, tiles);
    assert tile * workers == workers * tile && tile * tiles == tiles * tile;
  }

  lemma {:induction false} TilesAreSmall(start: nat, range: nat, tile: nat, i: nat)
    requires tile > 0 && start <= range && i < |Tiles(start, range, tile)|
    ensures 1 <= Tiles(start, range, tile)[i].count <= tile
    decreases range - start
  {
    if i == 0 {
    } else {
      TilesAreSmall(start + Min(tile, range - start), range, tile, i - 1);
    }
  }

  /** A share rounded up: one item less per worker would not do. */
  lemma TileIsTight(range: nat, workers: nat, count: nat)
    requires workers > 0 && 1 <= count <= DivCeil(range, workers)
    ensures (count - 1) * workers < range
  {
    var q := range / workers;
    assert range == workers * q + range % workers;
    MultipleGap(workers, count - 1, q);
    MultipleGap(workers, count, q);
    Commute(count - 1, workers);
  }

  /** The tiles for w workers: at most one each, none larger than an even share rounded up. */
  lemma TilesArePooled(range: nat, w: nat)
    requires 1 <= w <= range
    ensures var tiles := Tiles(0, range, DivCeil(range, w));
      && Partition(tiles, 0, range) && |tiles| <= w
      && forall i :: 0 <= i < |tiles| ==> 1 <= tiles[i].count && (tiles[i].count - 1) * w < range
  {
    var tile := DivCeil(range, w);
    var tiles := Tiles(0, range, tile);
    TileIsPositive(range, w);
    TilesPartition(0, range, tile);
    FewTiles(range, w, |tiles|);
    forall i | 0 <= i < |tiles| ensures 1 <= tiles[i].count && (tiles[i].count - 1) * w < range {
      TilesAreSmall(0, range, tile, i);
      TileIsTight(range, w, tiles[i].count);
    }
  }

  lemma TileIsPositive(range: nat, w: nat)
    requires 1 <= w <= range
    ensures DivCeil(range, w) >= 1
  {
    assert range == w * (range / w) + range % w;
  }

  /**
   Every plan covers the range exactly once. When the pool is used, there are at most as many chunks
   as workers and none is larger than an even share rounded up; otherwise there is one chunk.
   */
  lemma PlanIsPartition(range: nat, threshold: nat, workers: Option<nat>)
    ensures Partition(Plan(range, threshold, workers), 0, range)
    ensures range > 0 && !(range >= threshold && range > 1 && workers.Some? && workers.value > 1) ==>
      Plan(range, threshold, workers) == [Chunk(0, range)]
    ensures range >= threshold && range > 1 && workers.Some? && workers.value > 1 ==>
      var plan := Plan(range, threshold, workers);
      && |plan| <= workers.value
      && forall i :: 0 <= i < |plan| ==> 1 <= plan[i].count && (plan[i].count - 1) * Min(workers.value, range) < range
  {
    if range >= threshold && range > 1 && workers.Some? && workers.value > 1 {
      TilesArePooled(range, Min(workers.value, range));
    } else if range > 0 {
      assert [Chunk(0, range)][1..] == [];
    }
  }

  /** Chunks do not overlap, and later chunks lie further right. */
  lemma {:induction false} ChunksAreOrdered(chunks: seq<Chunk>, lo: nat, hi: nat, i: nat)
    requires Partition(chunks, lo, hi) && i < |chunks|
    ensures lo <= chunks[i].start && chunks[i].start + chunks[i].count <= hi
    ensures forall j :: i < j < |chunks| ==> chunks[i].start + chunks[i].count <= chunks[j].start
    decreases |chunks|
  {
    var mid := lo + chunks[0].count;
    if i > 0 {
      ChunksAreOrdered(chunks[1..], mid, hi, i - 1);
    } else {
      forall j | 0 < j < |chunks| ensures mid <= chunks[j].start {
        ChunksAreOrdered(chunks[1..], mid, hi, j - 1);
      }
      if |chunks| > 1 {
        ChunksAreOrdered(chunks[1..], mid, hi, 0);
      }
    }
  }

  ghost predicate InChunk(c: Chunk, t: nat) {
    c.start <= t < c.start + c.count
  }

  lemma {:induction false} EveryItemHasAChunk(chunks: seq<Chunk>, lo: nat, hi: nat, t: nat) returns (j: nat)
    requires Partition(chunks, lo, hi) && lo <= t < hi
    ensures j < |chunks| && InChunk(chunks[j], t)
    decreases |chunks|
  {
    if t < lo + chunks[0].count {
      j := 0;
    } else {
      var i := EveryItemHasAChunk(chunks[1..], lo + chunks[0].count, hi, t);
      j := i + 1;
    }
  }

  // ---- The workers as a state machine ----

  datatype Status = Working(done: nat) | Rejected | Finished

  datatype State<T> = State(buf: seq<T>, ok: bool, status: seq<Status>)

  function Start<T>(chunks: seq<Chunk>, buf: seq<T>): State<T> {
    State(buf, true, seq(|chunks|, _ => Working(0)))
  }

  ghost predicate RowsHaveWidth<T>(item: Item<T>, w: nat, range: nat) {
    forall t :: 0 <= t < range && item(t).Some? ==> |item(t).value| == w
  }

  /** Item t of a chunk has been completed. */
  ghost predicate Written(c: Chunk, s: Status, t: nat) {
    InChunk(c, t) && (s.Finished? || (s.Working? && t < c.start + s.done))
  }

  ghost predicate StatusFits<T>(c: Chunk, s: Status, ok: bool, item: Item<T>) {
    match s
    case Working(done) => done <= c.count && forall t :: c.start <= t < c.start + done ==> item(t).Some?
    case Rejected => exists t :: InChunk(c, t) && item(t).None?
    case Finished => ok ==> forall t :: InChunk(c, t) ==> item(t).Some?
  }

  /** While nothing has failed, every completed item's row is in the buffer. */
  ghost predicate RowsWritten<T>(chunks: seq<Chunk>, w: nat, range: nat, item: Item<T>, s: State<T>)
    requires |s.status| == |chunks|
  {
    forall j: nat, t: nat {:trigger Written(chunks[j], s.status[j], t)} ::
      j < |chunks| && t < range && Written(chunks[j], s.status[j], t) && item(t).Some? && s.ok ==>
        Row(s.buf, w, t) == item(t).value
  }

  ghost predicate Inv<T>(chunks: seq<Chunk>, w: nat, range: nat, item: Item<T>, s: State<T>) {
    && Partition(chunks, 0, range) && RowsHaveWidth(item, w, range)
    && |s.buf| == RowStart(w, range) && |s.status| == |chunks|
    && (!s.ok ==> exists t :: 0 <= t < range && item(t).None?)
    && (forall j :: 0 <= j < |chunks| ==> StatusFits(chunks[j], s.status[j], s.ok, item))
    && RowsWritten(chunks, w, range, item, s)
  }

  /** Worker j takes its next step; a finished worker does nothing. */
  function Step<T>(chunks: seq<Chunk>, w: nat, range: nat, item: Item<T>, s: State<T>, j: nat): State<T>
    requires j < |chunks| && Inv(chunks, w, range, item, s)
  {
    match s.status[j]
    case Finished => s
    case Rejected => s.(ok := false, status := s.status[j := Finished])
    case Working(done) =>
      if done == chunks[j].count then s.(status := s.status[j := Finished])
      else
        var t := chunks[j].start + done;
        match item(t)
        case None => s.(status := s.status[j := Rejected])
        case Some(row) =>
          ChunksAreOrdered(chunks, 0, range, j);
          RowFits(range, w, t);
          State(Put(s.buf, w, t, row), s.ok, s.status[j := Working(done + 1)])
  }

  /** Writing the row of item t, and marking it completed, keeps the rows. */
  lemma WriteKeepsRows<T>(chunks: seq<Chunk>, w: nat, range: nat, item: Item<T>, s: State<T>, s': State<T>, t: nat)
    requires |s.status| == |s'.status| == |chunks| && RowsWritten(chunks, w, range, item, s)
    requires RowStart(w, range) <= |s.buf| && t < range && item(t).Some? && |item(t).value| == w
    requires s'.buf == Put(s.buf, w, t, item(t).value) && s'.ok == s.ok
    requires forall i: nat, u: nat {:trigger Written(chunks[i], s'.status[i], u)} ::
      i < |chunks| && u != t && Written(chunks[i], s'.status[i], u) ==> Written(chunks[i], s.status[i], u)
    ensures RowsWritten(chunks, w, range, item, s')
  {
    forall i: nat, u: nat | i < |chunks| && u < range && Written(chunks[i], s'.status[i], u) && item(u).Some? && s'.ok
      ensures Row(s'.buf, w, u) == item(u).value
    {
      RowAfterPut(s.buf, w, range, t, item(t).value, u);
      assert u != t ==> Written(chunks[i], s.status[i], u);
    }
  }

  /** A step that writes a row. */
  lemma WriteKeepsInv<T>(chunks: seq<Chunk>, w: nat, range: nat, item: Item<T>, s: State<T>, j: nat, t: nat)
    requires j < |chunks| && Inv(chunks, w, range, item, s)
    requires s.status[j].Working? && s.status[j].done < chunks[j].count
    requires t == chunks[j].start + s.status[j].done && item(t).Some?
    ensures Inv(chunks, w, range, item, Step(chunks, w, range, item, s, j))
  {
    var s' := Step(chunks, w, range, item, s, j);
    ChunksAreOrdered(chunks, 0, range, j);
    WriteKeepsRows(chunks, w, range, item, s, s', t);
  }

  /** A step that only changes the status of a worker or the flag. */
  lemma StatusKeepsInv<T>(chunks: seq<Chunk>, w: nat, range: nat, item: Item<T>, s: State<T>, s': State<T>, j: nat)
    requires j < |chunks| && Inv(chunks, w, range, item, s)
    requires s' == Step(chunks, w, range, item, s, j) && s'.buf == s.buf
    requires s.status[j].Working? ==>
      s.status[j].done == chunks[j].count || item(chunks[j].start + s.status[j].done).None?
    ensures Inv(chunks, w, range, item, s')
  {
    ChunksAreOrdered(chunks, 0, range, j);
    forall i: nat, u: nat | i < |chunks| && u < range && Written(chunks[i], s'.status[i], u) && item(u).Some? && s'.ok
      ensures Row(s'.buf, w, u) == item(u).value
    {
      assert Written(chunks[i], s.status[i], u);
    }
  }

  lemma StepKeepsInv<T>(chunks: seq<Chunk>, w: nat, range: nat, item: Item<T>, s: State<T>, j: nat)
    requires j < |chunks| && Inv(chunks, w, range, item, s)
    ensures Inv(chunks, w, range, item, Step(chunks, w, range, item, s, j))
  {
    assert StatusFits(chunks[j], s.status[j], s.ok, item);
    if s.status[j].Working? && s.status[j].done < chunks[j].count && item(chunks[j].start + s.status[j].done).Some? {
      WriteKeepsInv(chunks, w, range, item, s, j, chunks[j].start + s.status[j].done);
    } else {
      StatusKeepsInv(chunks, w, range, item, s, Step(chunks, w, range, item, s, j), j);
    }
  }

  lemma StartInv<T>(chunks: seq<Chunk>, w: nat, range: nat, item: Item<T>, buf: seq<T>)
    requires Partition(chunks, 0, range) && RowsHaveWidth(item, w, range) && |buf| == RowStart(w, range)
    ensures Inv(chunks, w, range, item, Start(chunks, buf))
  {
  }

  /** The state after the workers named in the schedule have stepped in that order. */
  ghost function Run<T>(chunks: seq<Chunk>, w: nat, range: nat, item: Item<T>, s: State<T>,
                        schedule: seq<nat>): (r: State<T>)
    requires Inv(chunks, w, range, item, s)
    requires forall k :: 0 <= k < |schedule| ==> schedule[k] < |chunks|
    ensures Inv(chunks, w, range, item, r)
    decreases |schedule|
  {
    if schedule == [] then s
    else
      StepKeepsInv(chunks, w, range, item, s, schedule[0]);
      Run(chunks, w, range, item, Step(chunks, w, range, item, s, schedule[0]), schedule[1..])
  }

  ghost predicate AllFinished<T>(s: State<T>) {
    forall j :: 0 <= j < |s.status| ==> s.status[j].Finished?
  }

  ghost predicate AllSucceed<T>(item: Item<T>, range: nat) {
    forall t :: 0 <= t < range ==> item(t).Some?
  }

  /** The buffer holds the row of every item. */
  ghost predicate Complete<T>(item: Item<T>, w: nat, range: nat, buf: seq<T>) {
    && |buf| == RowStart(w, range)
    && forall t :: 0 <= t < range ==> item(t) == Some(Row(buf, w, t))
  }

  /** How any finished run ends: the flag is the conjunction over all items, and if it is set the buffer is complete. */
  lemma FinishedOutcome<T>(chunks: seq<Chunk>, w: nat, range: nat, item: Item<T>, s: State<T>)
    requires Inv(chunks, w, range, item, s) && AllFinished(s)
    ensures s.ok <==> AllSucceed(item, range)
    ensures s.ok ==> Complete(item, w, range, s.buf)
  {
    if s.ok {
      forall t | 0 <= t < range
        ensures item(t) == Some(Row(s.buf, w, t))
      {
        var j := EveryItemHasAChunk(chunks, 0, range, t);
        assert StatusFits(chunks[j], s.status[j], s.ok, item);
        assert Written(chunks[j], s.status[j], t);
        RowFits(range, w, t);
      }
    }
  }

  /** State s is how some finished run over the given chunks and initial buffer ends. */
  ghost predicate FinalState<T>(chunks: seq<Chunk>, w: nat, range: nat, item: Item<T>, buf: seq<T>, s: State<T>) {
    && Inv(chunks, w, range, item, Start(chunks, buf))
    && AllFinished(s)
    && exists schedule: seq<nat> ::
         && (forall k :: 0 <= k < |schedule| ==> schedule[k] < |chunks|)
         && Run(chunks, w, range, item, Start(chunks, buf), schedule) == s
  }

  lemma FinalOutcome<T>(chunks: seq<Chunk>, w: nat, range: nat, item: Item<T>, buf: seq<T>, s: State<T>)
    requires FinalState(chunks, w, range, item, buf, s)
    ensures s.ok == AllSucceed(item, range)
    ensures s.ok ==> Complete(item, w, range, s.buf)
  {
    var schedule: seq<nat> :|
      && (forall k :: 0 <= k < |schedule| ==> schedule[k] < |chunks|)
      && Run(chunks, w, range, item, Start(chunks, buf), schedule) == s;
    FinishedOutcome(chunks, w, range, item, s);
  }

  lemma CompleteIsUnique<T>(item: Item<T>, w: nat, range: nat, x: seq<T>, y: seq<T>)
    requires Complete(item, w, range, x) && Complete(item, w, range, y)
    ensures x == y
  {
    forall t | 0 <= t < range
      ensures Row(x, w, t) == Row(y, w, t)
    {
      assert item(t) == Some(Row(x, w, t)) && item(t) == Some(Row(y, w, t));
    }
    RowsDetermine(x, y, w, range);
  }

  /**
   Schedule independence: any two partitions of the range, run from any buffers under any two
   schedules that finish, end with the same flag and, when it is set, with the same buffer.
   The serial call f(0, range) is the partition into one chunk.
   */
  lemma ScheduleIndependence<T>(w: nat, range: nat, item: Item<T>,
                                chunks: seq<Chunk>, buf: seq<T>, s: State<T>,
                                chunks': seq<Chunk>, buf': seq<T>, s': State<T>)
    requires FinalState(chunks, w, range, item, buf, s)
    requires FinalState(chunks', w, range, item, buf', s')
    ensures s.ok == s'.ok == AllSucceed(item, range)
    ensures s.ok ==> s.buf == s'.buf && Complete(item, w, range, s.buf)
  {
    FinalOutcome(chunks, w, range, item, buf, s);
    FinalOutcome(chunks', w, range, item, buf', s');
    if s.ok {
      CompleteIsUnique(item, w, range, s.buf, s'.buf);
    }
  }

  // ---- Runs can always finish ----

  function Remaining(c: Chunk, s: Status): nat {
    match s
    case Working(done) => (if done <= c.count then c.count - done else 0) + 2
    case Rejected => 1
    case Finished => 0
  }

  function Work(chunks: seq<Chunk>, status: seq<Status>): nat
    requires |chunks| == |status|
  {
    if chunks == [] then 0 else Remaining(chunks[0], status[0]) + Work(chunks[1..], status[1..])
  }

  lemma {:induction false} WorkUpdate(chunks: seq<Chunk>, status: seq<Status>, j: nat, s: Status)
    requires |chunks| == |status| && j < |chunks|
    ensures Work(chunks, status[j := s])
         == Work(chunks, status) - Remaining(chunks[j], status[j]) + Remaining(chunks[j], s)
  {
    if j == 0 {
      assert status[0 := s][1..] == status[1..];
    } else {
      WorkUpdate(chunks[1..], status[1..], j - 1, s);
      assert status[j := s][1..] == status[1..][j - 1 := s];
    }
  }

  /** It changes the status of its own worker only, towards the end. */
  lemma StepMovesOn<T>(chunks: seq<Chunk>, w: nat, range: nat, item: Item<T>, s: State<T>, j: nat)
    requires j < |chunks| && Inv(chunks, w, range, item, s) && !s.status[j].Finished?
    ensures var s' := Step(chunks, w, range, item, s, j);
      && |s'.status| == |s.status| && s'.status == s.status[j := s'.status[j]]
      && Remaining(chunks[j], s'.status[j]) < Remaining(chunks[j], s.status[j])
  {
    assert StatusFits(chunks[j], s.status[j], s.ok, item);
  }

  /** A step of an unfinished worker reduces the remaining work. */
  lemma StepMakesProgress<T>(chunks: seq<Chunk>, w: nat, range: nat, item: Item<T>, s: State<T>, j: nat)
    requires j < |chunks| && Inv(chunks, w, range, item, s) && !s.status[j].Finished?
    ensures var s' := Step(chunks, w, range, item, s, j);
      Inv(chunks, w, range, item, s') && Work(chunks, s'.status) < Work(chunks, s.status)
  {
    var s' := Step(chunks, w, range, item, s, j);
    StepKeepsInv(chunks, w, range, item, s, j);
    StepMovesOn(chunks, w, range, item, s, j);
    WorkUpdate(chunks, s.status, j, s'.status[j]);
  }

  /** From every reachable state some schedule finishes: an unfinished worker always makes progress. */
  lemma {:induction false} CanFinish<T>(chunks: seq<Chunk>, w: nat, range: nat, item: Item<T>, s: State<T>)
    returns (schedule: seq<nat>)
    requires Inv(chunks, w, range, item, s)
    ensures forall k :: 0 <= k < |schedule| ==> schedule[k] < |chunks|
    ensures AllFinished(Run(chunks, w, range, item, s, schedule))
    ensures |schedule| <= Work(chunks, s.status)
    decreases Work(chunks, s.status)
  {
    if AllFinished(s) {
      schedule := [];
    } else {
      var j :| 0 <= j < |chunks| && !s.status[j].Finished?;
      StepMakesProgress(chunks, w, range, item, s, j);
      var rest := CanFinish(chunks, w, range, item, Step(chunks, w, range, item, s, j));
      schedule := [j] + rest;
      assert schedule[1..] == rest;
    }
  }

  /** Every partition has a finished run from every buffer, so the results above are about some run. */
  lemma SomeRunFinishes<T>(chunks: seq<Chunk>, w: nat, range: nat, item: Item<T>, buf: seq<T>) returns (s: State<T>)
    requires Partition(chunks, 0, range) && RowsHaveWidth(item, w, range) && |buf| == RowStart(w, range)
    ensures FinalState(chunks, w, range, item, buf, s)
  {
    StartInv(chunks, w, range, item, buf);
    var schedule := CanFinish(chunks, w, range, item, Start(chunks, buf));
    s := Run(chunks, w, range, item, Start(chunks, buf), schedule);
  }
}
