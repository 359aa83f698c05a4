/** The event-chunking rule of the parallel Geant4 driver script
    (Examples/Scripts/Python/geant4_parallel2.py): the range of event numbers
    [0, n_events) is cut into contiguous half-open chunks (begin, end), one
    job per chunk, and the number of worker processes is derived from the
    CPU count. Every Python exception the rule can raise is an `Err`. */
module Geant4Parallel2 {
  import opened PyBuiltins
  import opened Arith

  /** Number of events the script's `__main__` block simulates. */
  const ScriptEvents := 100

  /** `chunk_size = n_events // (j - 1)`; undefined (ZeroDivisionError) for
      j == 1. It is zero exactly when n_events lies in the half-open gap
      between 0 and j - 1, which is when the later `range` call refuses it. */
  function ChunkSize(nEvents: int, j: int): (size: int)
    requires j != 1
    ensures j > 1 ==> (j - 1) * size <= nEvents < (j - 1) * size + (j - 1)
    ensures j < 1 ==> (j - 1) * size >= nEvents > (j - 1) * size + (j - 1)
    ensures size == 0 <==> (j > 1 && 0 <= nEvents < j - 1) || (j < 1 && j - 1 < nEvents <= 0)
  {
    var size := FloorDiv(nEvents, j - 1).value;
    FloorZeroIff(nEvents, j - 1, size);
    size
  }

  /** `chunkify(n_events, j)`: the begins `range(0, n_events, chunk_size)`,
      each paired by `zip` with its end `min(begin + chunk_size, n_events)`. */
  function Chunkify(nEvents: int, j: int): (r: Result<seq<(int, int)>>)
    ensures r == Err(ZeroDivisionError) <==> j == 1
    ensures r == Err(ValueError) <==> (j > 1 && 0 <= nEvents < j - 1) || (j < 1 && j - 1 < nEvents <= 0)
    ensures r.Ok? ==> j != 1 && ChunkSize(nEvents, j) != 0
    ensures r.Ok? ==> forall i :: 0 <= i < |r.value| ==>
                 r.value[i].0 == i * ChunkSize(nEvents, j) &&
                 r.value[i].1 == Min(r.value[i].0 + ChunkSize(nEvents, j), nEvents)
    ensures r.Ok? && ChunkSize(nEvents, j) > 0 ==>
              (forall i :: 0 <= i < |r.value| ==> r.value[i].0 < nEvents) &&
              |r.value| * ChunkSize(nEvents, j) >= nEvents
    ensures r.Ok? && ChunkSize(nEvents, j) < 0 ==>
              (forall i :: 0 <= i < |r.value| ==> r.value[i].0 > nEvents) &&
              |r.value| * ChunkSize(nEvents, j) <= nEvents
  {
    match FloorDiv(nEvents, j - 1)
    case Err(e) => Err(e)
    case Ok(chunkSize) =>
      assert j != 1 && chunkSize == ChunkSize(nEvents, j);
      match Range(0, nEvents, chunkSize)
      case Err(e) => Err(e)
      case Ok(begins) =>
        Ok(PairWithEnds(begins, chunkSize, nEvents))
  }

  /** `tuple(zip(begins, ends))` with `ends = [min(b + chunk_size, n_events)
      for b in begins]`: every begin is kept, paired with its clipped end. */
  function PairWithEnds(begins: seq<int>, chunkSize: int, nEvents: int): (chunks: seq<(int, int)>)
    ensures |chunks| == |begins|
    ensures forall i :: 0 <= i < |chunks| ==> chunks[i] == (begins[i], Min(begins[i] + chunkSize, nEvents))
  {
    var ends := seq(|begins|, i requires 0 <= i < |begins| => Min(begins[i] + chunkSize, nEvents));
    Zip(begins, ends)
  }

  /** `j = max(cpu_count() - 2, 2)`: two CPUs are kept free, but never fewer
      than two workers, so the divisor `j - 1` of the chunk size is at least 1. */
  function WorkerCount(cpuCount: int): (j: int)
    ensures j >= 2 && j - 1 >= 1
    ensures cpuCount >= 4 ==> j == cpuCount - 2
    ensures cpuCount <= 4 ==> j == 2
  {
    Max(cpuCount - 2, 2)
  }

  /** The chunks the script's `__main__` block hands to the worker pool. */
  function ScriptChunks(cpuCount: int): (r: Result<seq<(int, int)>>)
    ensures r.Err? ==> r.error == ValueError
  {
    Chunkify(ScriptEvents, WorkerCount(cpuCount))
  }
}
