/** What `chunkify` promises its caller when it succeeds: the chunks cut
    [0, n_events) into consecutive, non-empty, equally sized pieces (the last
    one possibly shorter), so that every event is simulated by exactly one
    worker job. The facts are first proved of the reference progression
    `(i * size, min((i + 1) * size, n))` and then carried over to `Chunkify`. */
module ChunkProperties {
  import opened PyBuiltins
  import opened Arith
  import opened Geant4Parallel2

  /** The chunks are `(i * size, min(i * size + size, n))` for i = 0 ..
      ceil(n / size) - 1, a definition independent of `range` and `zip`. */
  ghost predicate Progression(chunks: seq<(int, int)>, n: int, size: int)
  {
    size >= 1 && n >= 1 &&
    |chunks| == CeilDiv(n, size) &&
    forall i :: 0 <= i < |chunks| ==> chunks[i] == (i * size, Min(i * size + size, n))
  }

  /** The chunks tile [0, n): each is a non-empty sub-range of it, the first
      starts at 0, the last stops at n, and each stops where the next starts. */
  ghost predicate Tiles(chunks: seq<(int, int)>, n: int)
  {
    |chunks| >= 1 &&
    chunks[0].0 == 0 &&
    chunks[|chunks| - 1].1 == n &&
    (forall i :: 0 <= i < |chunks| ==> 0 <= chunks[i].0 < chunks[i].1 <= n) &&
    (forall i :: 0 <= i < |chunks| - 1 ==> chunks[i].1 == chunks[i + 1].0)
  }

  /** Sum of the chunk lengths `end - begin`. */
  function TotalLength(chunks: seq<(int, int)>): (total: int)
  {
    if chunks == [] then 0 else (chunks[0].1 - chunks[0].0) + TotalLength(chunks[1..])
  }

  /** Contiguous chunks sum to the distance from the first begin to the last end. */
  lemma {:induction false} TotalLengthContiguous(chunks: seq<(int, int)>)
    requires |chunks| >= 1
    requires forall i :: 0 <= i < |chunks| - 1 ==> chunks[i].1 == chunks[i + 1].0
    ensures TotalLength(chunks) == chunks[|chunks| - 1].1 - chunks[0].0
  {
    if |chunks| > 1 {
      var rest := chunks[1..];
      assert forall i :: 0 <= i < |rest| - 1 ==> rest[i].1 == rest[i + 1].0 by {
        forall i | 0 <= i < |rest| - 1 ensures rest[i].1 == rest[i + 1].0 {
          assert rest[i] == chunks[i + 1] && rest[i + 1] == chunks[i + 2];
        }
      }
      TotalLengthContiguous(rest);
      assert chunks[0].1 == rest[0].0;
    }
  }

  // ---------------------------------------------------------------------
  // The reference progression

  lemma ProgressionTiles(chunks: seq<(int, int)>, n: int, size: int)
    requires Progression(chunks, n, size)
    ensures Tiles(chunks, n)
  {
    var k := |chunks|;
    assert chunks[k - 1].1 == n by {
      assert (k - 1) * size + size == k * size;
    }
    forall i | 0 <= i < k
      ensures 0 <= chunks[i].0 < chunks[i].1 <= n
    {
      MulMonotone(0, i, size);
      MulMonotone(i, k - 1, size);
    }
    forall i | 0 <= i < k - 1
      ensures chunks[i].1 == chunks[i + 1].0
    {
      MulMonotone(i + 1, k - 1, size);
      assert i * size + size == (i + 1) * size;
    }
  }

  lemma ProgressionBegins(chunks: seq<(int, int)>, n: int, size: int)
    requires Progression(chunks, n, size)
    ensures forall m :: 0 <= m * size < n ==> 0 <= m < |chunks|
    ensures forall i, k :: 0 <= i < k < |chunks| ==> chunks[i].0 < chunks[k].0
  {
    forall m | 0 <= m * size < n
      ensures 0 <= m < |chunks|
    {
      if m < 0 { MulMonotone(m, -1, size); }
      if m >= |chunks| { MulMonotone(|chunks|, m, size); }
    }
    forall i, k | 0 <= i < k < |chunks|
      ensures chunks[i].0 < chunks[k].0
    {
      MulMonotone(i + 1, k, size);
      assert (i + 1) * size == i * size + size;
    }
  }

  lemma ProgressionLengths(chunks: seq<(int, int)>, n: int, size: int)
    requires Progression(chunks, n, size)
    ensures forall i :: 0 <= i < |chunks| - 1 ==> chunks[i].1 - chunks[i].0 == size
    ensures 1 <= chunks[|chunks| - 1].1 - chunks[|chunks| - 1].0 <= size
    ensures TotalLength(chunks) == n
  {
    ProgressionTiles(chunks, n, size);
    var k := |chunks|;
    forall i | 0 <= i < k - 1
      ensures chunks[i].1 - chunks[i].0 == size
    {
      MulMonotone(i + 1, k - 1, size);
      assert i * size + size == (i + 1) * size;
    }
    assert (k - 1) * size + size == k * size;
    TotalLengthContiguous(chunks);
  }

  /** Chunk i holds `event` exactly when i is `event // size`. */
  lemma ProgressionChunkOf(chunks: seq<(int, int)>, n: int, size: int, event: int, i: int)
    requires Progression(chunks, n, size)
    requires 0 <= event < n && 0 <= i < |chunks|
    ensures chunks[i].0 <= event < chunks[i].1 <==> i == event / size
  {
    assert chunks[i] == (i * size, Min(i * size + size, n));
    InBlockIff(event, size, i);
  }

  lemma ProgressionCovers(chunks: seq<(int, int)>, n: int, size: int, event: int)
    requires Progression(chunks, n, size)
    requires 0 <= event < n
    ensures event / size < |chunks|
    ensures forall i :: 0 <= i < |chunks| ==>
              (chunks[i].0 <= event < chunks[i].1 <==> i == event / size)
  {
    var q := event / size;
    assert size * q <= event;
    MulMonotone(0, q, size);
    ProgressionBegins(chunks, n, size);
    assert q < |chunks|;
    forall i | 0 <= i < |chunks|
      ensures chunks[i].0 <= event < chunks[i].1 <==> i == q
    {
      ProgressionChunkOf(chunks, n, size, event, i);
    }
  }

  // ---------------------------------------------------------------------
  // chunkify

  /** At least two workers and at least j - 1 events give a positive chunk size. */
  lemma ChunkSizePositive(nEvents: int, j: int)
    requires j >= 2 && nEvents >= j - 1
    ensures ChunkSize(nEvents, j) >= 1
  {
    var size := ChunkSize(nEvents, j);
    if size < 1 {
      MulMonotone(size, 0, j - 1);
      assert false;
    }
  }

  /** A sequence of pairs `(i * size, min(i * size + size, n))` whose
      begins stay below n while `|chunks| * size` reaches n is the reference
      progression. */
  lemma ProgressionIntro(chunks: seq<(int, int)>, n: int, size: int)
    requires size >= 1 && n >= 1
    requires forall i :: 0 <= i < |chunks| ==> chunks[i].0 == i * size && chunks[i].1 == Min(chunks[i].0 + size, n)
    requires forall i :: 0 <= i < |chunks| ==> chunks[i].0 < n
    requires |chunks| * size >= n
    ensures Progression(chunks, n, size)
  {
    var k := |chunks|;
    if k == 0 {
      assert false;
    }
    assert chunks[k - 1].0 == (k - 1) * size < n;
    CeilDivUnique(n, size, k);
  }

  /** For a valid call (at least two workers, at least j - 1 events) the
      result is the reference progression with step `chunk_size >= 1`. */
  lemma ChunkifyShape(nEvents: int, j: int)
    requires j >= 2 && nEvents >= j - 1
    ensures ChunkSize(nEvents, j) >= 1
    ensures Chunkify(nEvents, j).Ok?
    ensures Progression(Chunkify(nEvents, j).value, nEvents, ChunkSize(nEvents, j))
  {
    ChunkSizePositive(nEvents, j);
    ProgressionIntro(Chunkify(nEvents, j).value, nEvents, ChunkSize(nEvents, j));
  }

  /** A valid call yields chunks that tile [0, n_events). */
  lemma ChunkifyTiles(nEvents: int, j: int)
    requires j >= 2 && nEvents >= j - 1
    ensures Chunkify(nEvents, j).Ok? && Tiles(Chunkify(nEvents, j).value, nEvents)
  {
    ChunkifyShape(nEvents, j);
    ProgressionTiles(Chunkify(nEvents, j).value, nEvents, ChunkSize(nEvents, j));
  }

  /** The begins are exactly the multiples of `chunk_size` below n_events,
      in strictly increasing order. */
  lemma ChunkifyBegins(nEvents: int, j: int)
    requires j >= 2 && nEvents >= j - 1
    ensures Chunkify(nEvents, j).Ok?
    ensures forall i :: 0 <= i < |Chunkify(nEvents, j).value| ==>
              Chunkify(nEvents, j).value[i].0 == i * ChunkSize(nEvents, j)
    ensures forall m :: 0 <= m * ChunkSize(nEvents, j) < nEvents ==> 0 <= m < |Chunkify(nEvents, j).value|
    ensures forall i, k :: 0 <= i < k < |Chunkify(nEvents, j).value| ==>
              Chunkify(nEvents, j).value[i].0 < Chunkify(nEvents, j).value[k].0
  {
    ChunkifyShape(nEvents, j);
    ProgressionBegins(Chunkify(nEvents, j).value, nEvents, ChunkSize(nEvents, j));
  }

  /** Every chunk but the last holds exactly `chunk_size` events, the last
      between 1 and `chunk_size`, and the lengths add up to n_events. */
  lemma ChunkifyLengths(nEvents: int, j: int)
    requires j >= 2 && nEvents >= j - 1
    ensures Chunkify(nEvents, j).Ok? && |Chunkify(nEvents, j).value| >= 1
    ensures forall i :: 0 <= i < |Chunkify(nEvents, j).value| - 1 ==>
              Chunkify(nEvents, j).value[i].1 - Chunkify(nEvents, j).value[i].0 == ChunkSize(nEvents, j)
    ensures var chunks := Chunkify(nEvents, j).value;
            1 <= chunks[|chunks| - 1].1 - chunks[|chunks| - 1].0 <= ChunkSize(nEvents, j)
    ensures TotalLength(Chunkify(nEvents, j).value) == nEvents
  {
    ChunkifyShape(nEvents, j);
    ProgressionLengths(Chunkify(nEvents, j).value, nEvents, ChunkSize(nEvents, j));
  }

  /** There are `ceil(n_events / chunk_size)` chunks, never fewer than
      j - 1; `zip` drops no begin, since begins and ends have equal length. */
  lemma ChunkifyCount(nEvents: int, j: int)
    requires j >= 2 && nEvents >= j - 1
    ensures Chunkify(nEvents, j).Ok?
    ensures |Chunkify(nEvents, j).value| == CeilDiv(nEvents, ChunkSize(nEvents, j))
    ensures |Chunkify(nEvents, j).value| == |RangeFrom(0, nEvents, ChunkSize(nEvents, j))|
    ensures |Chunkify(nEvents, j).value| >= j - 1
  {
    ChunkifyShape(nEvents, j);
    var size := ChunkSize(nEvents, j);
    MulCancelLe(j - 1, |Chunkify(nEvents, j).value|, size);
  }

  /** Each event of [0, n_events) lies in exactly one chunk, the one at
      index `event // chunk_size`. */
  lemma ChunkifyCovers(nEvents: int, j: int, event: int)
    requires j >= 2 && nEvents >= j - 1
    requires 0 <= event < nEvents
    ensures Chunkify(nEvents, j).Ok?
    ensures event / ChunkSize(nEvents, j) < |Chunkify(nEvents, j).value|
    ensures forall i :: 0 <= i < |Chunkify(nEvents, j).value| ==>
              (Chunkify(nEvents, j).value[i].0 <= event < Chunkify(nEvents, j).value[i].1
               <==> i == event / ChunkSize(nEvents, j))
  {
    ChunkifyShape(nEvents, j);
    ProgressionCovers(Chunkify(nEvents, j).value, nEvents, ChunkSize(nEvents, j), event);
  }

  /** For a non-negative number of events and at least two workers, the call
      succeeds exactly when there are at least j - 1 events. */
  lemma ChunkifyDefinedIff(nEvents: int, j: int)
    requires j >= 2 && nEvents >= 0
    ensures Chunkify(nEvents, j).Ok? <==> nEvents >= j - 1
  {
  }

  /** With no worker count above 0 (never produced by `WorkerCount`) the
      divisor `j - 1` is negative: the chunk size is 0 (ValueError) or has the
      sign opposite to the range it should step through, so `range` is empty. */
  lemma NonPositiveWorkersEmpty(nEvents: int, j: int)
    requires j <= 0
    ensures Chunkify(nEvents, j) == Err(ValueError) || Chunkify(nEvents, j) == Ok([])
  {
    var size := ChunkSize(nEvents, j);
    if size > 0 {
      MulPositive(1 - j, size);
      assert nEvents < 0;
    } else if size < 0 {
      MulPositive(1 - j, -size);
      assert nEvents > 0;
    }
  }

  /** More chunks than workers are possible: 5 events on 4 workers give a
      chunk size of 1 and five chunks. */
  lemma FiveEventsFourWorkers()
    ensures Chunkify(5, 4) == Ok([(0, 1), (1, 2), (2, 3), (3, 4), (4, 5)])
  {
    ChunkifyShape(5, 4);
    var chunks := Chunkify(5, 4).value;
    assert ChunkSize(5, 4) == 1;
    assert CeilDiv(5, 1) == 5;
    assert chunks[0] == (0, 1) && chunks[1] == (1, 2) && chunks[2] == (2, 3);
    assert chunks[3] == (3, 4) && chunks[4] == (4, 5);
    assert |chunks| == 5;
    assert chunks == [(0, 1), (1, 2), (2, 3), (3, 4), (4, 5)];
  }

  /** Whatever the CPU count, the divisor `j - 1` is non-zero; with the
      script's 100 events the call succeeds exactly when at most 103 CPUs
      are reported (so that j - 1 <= 100), and then the chunks tile [0, 100). */
  lemma ScriptChunksDefinedIff(cpuCount: int)
    ensures ScriptChunks(cpuCount) != Err(ZeroDivisionError)
    ensures ScriptChunks(cpuCount).Ok? <==> cpuCount <= 103
    ensures ScriptChunks(cpuCount).Ok? ==> Tiles(ScriptChunks(cpuCount).value, ScriptEvents)
  {
    var j := WorkerCount(cpuCount);
    if j - 1 <= ScriptEvents { ChunkifyTiles(ScriptEvents, j); }
  }
}
