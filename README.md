# Event chunking of the parallel Geant4 driver

The driver script `Examples/Scripts/Python/geant4_parallel2.py` simulates a
fixed number of events with Geant4, split across a pool of worker processes.
This project models the one piece of logic in it that decides who simulates
what:

- `chunkify(n_events, j)` cuts the event numbers `[0, n_events)` into
  contiguous half-open chunks `(begin, end)`. The chunk size is
  `n_events // (j - 1)`. The begins are `range(0, n_events, chunk_size)`.
  Each end is `min(begin + chunk_size, n_events)`. `zip` pairs begins with ends.
- The worker count is `j = max(cpu_count() - 2, 2)`.
- The script's main block calls `chunkify(n_events=100, j=j)`.

The model follows Python's semantics on unbounded integers for every input:

- `//` rounds toward minus infinity. Dafny's `/` is Euclidean, so a negative
  divisor is handled explicitly.
- `j == 1` raises `ZeroDivisionError`.
- A zero chunk size makes `range` raise `ValueError`.
- A negative step makes `range` descend.
- `zip` stops at the shorter input.

Each exception is an `Err` value of a `Result` type, not a precondition.

Modules:

- `PyBuiltins` (`python_builtins.dfy`): `min`, `max`, `//`, `range` and `zip`.
- `Geant4Parallel2` (`geant4_parallel2.dfy`): `ChunkSize`, `Chunkify`,
  `PairWithEnds` (the list comprehension and `zip`), `WorkerCount` and `ScriptChunks`. `ScriptChunks` is what the main block
  passes to the pool.
- `ChunkProperties` (`chunk_properties.dfy`): what a successful call
  guarantees. `Progression` is a reference definition, chunk `i` being
  `(i * size, min(i * size + size, n))` with `ceil(n / size)` chunks.
  `ChunkifyShape` shows that `Chunkify` produces it. The tiling, length,
  count and coverage facts are proved of the reference and carried over.
- `Arith` (`arith.dfy`): the non-linear integer steps those proofs need.

The repository's C++ core also holds a Kalman vertex updater
(`Core/include/Acts/Vertexing/KalmanVertexUpdater.hpp`). It is
double-precision dense matrix algebra with inversions, independent of the
driver, so the model covers the Python driver's chunking rule alone.

## Model

| member | source | states |
|---|---|---|
| `PyBuiltins.FloorDiv` | Examples/Scripts/Python/geant4_parallel2.py:52 | `a // b` fails with ZeroDivisionError exactly when `b == 0`; otherwise the result is the floor quotient, bracketed as `b*q <= a < b*q + b` (positive `b`) or the mirrored bounds (negative `b`) |
| `PyBuiltins.RangeFrom` | Examples/Scripts/Python/geant4_parallel2.py:53 | element `i` is `start + i*step`; every element is below `stop` (ascending) or above it (descending); the next term `start + len*step` has passed `stop`, so the progression is the longest one that fits |
| `PyBuiltins.Range` | Examples/Scripts/Python/geant4_parallel2.py:53 | `range` fails with ValueError exactly when the step is 0; otherwise element `i` is `start + i*step`, every element is below `stop` (positive step) or above it (negative step), and the next term `start + len*step` has passed `stop`, so the result is the longest such progression |
| `PyBuiltins.Min` | Examples/Scripts/Python/geant4_parallel2.py:54 | the result is one of the two arguments and is not greater than either |
| `PyBuiltins.Max` | Examples/Scripts/Python/geant4_parallel2.py:61 | the result is one of the two arguments and is not less than either |
| `PyBuiltins.Zip` | Examples/Scripts/Python/geant4_parallel2.py:55 | the length is the shorter input's length, and pair `i` is `(a[i], b[i])` |
| `Geant4Parallel2.ChunkSize` | Examples/Scripts/Python/geant4_parallel2.py:52 | `n_events // (j - 1)` is the floor quotient; it is 0 exactly when `0 <= n_events < j - 1` (for `j > 1`) or `j - 1 < n_events <= 0` (for `j < 1`) |
| `Geant4Parallel2.Chunkify` | Examples/Scripts/Python/geant4_parallel2.py:50-55 | ZeroDivisionError exactly when `j == 1`; ValueError exactly when the chunk size is 0, spelled out as conditions on `n_events` and `j`; on success chunk `i` is `(i*size, min(i*size + size, n_events))`; with a positive size every begin is below `n_events` and `len * size` reaches `n_events` (a negative size gives the mirrored facts) |
| `Geant4Parallel2.PairWithEnds` | Examples/Scripts/Python/geant4_parallel2.py:54-55 | every begin is kept, in order, and paired with its end `min(begin + chunk_size, n_events)` |
| `Geant4Parallel2.WorkerCount` | Examples/Scripts/Python/geant4_parallel2.py:61 | the worker count is at least 2, so the divisor `j - 1` is at least 1; it is `cpu_count - 2` from 4 CPUs up and 2 below |
| `Geant4Parallel2.ScriptChunks` | Examples/Scripts/Python/geant4_parallel2.py:61-62 | the main block's call can fail only with ValueError, never with ZeroDivisionError |
| `ChunkProperties.ChunkSizePositive` | Examples/Scripts/Python/geant4_parallel2.py:52 | with `j >= 2` and `n_events >= j - 1` the chunk size is at least 1 |
| `ChunkProperties.ChunkifyShape` | Examples/Scripts/Python/geant4_parallel2.py:52-55 | a valid call succeeds and equals the reference progression: `ceil(n_events / size)` chunks, chunk `i` being `(i*size, min(i*size + size, n_events))` |
| `ChunkProperties.ChunkifyTiles` | Examples/Scripts/Python/geant4_parallel2.py:53-55 | the chunks tile `[0, n_events)`: the first begin is 0, the last end is `n_events`, each end is the next begin, and every chunk satisfies `0 <= begin < end <= n_events` |
| `ChunkProperties.ChunkifyBegins` | Examples/Scripts/Python/geant4_parallel2.py:53 | begin `i` is `i * chunk_size`; every multiple of the chunk size below `n_events` is a begin; the begins strictly increase |
| `ChunkProperties.ChunkifyLengths` | Examples/Scripts/Python/geant4_parallel2.py:53-54 | every chunk but the last has exactly `chunk_size` events, the last between 1 and `chunk_size`, and the lengths sum to `n_events` |
| `ChunkProperties.ChunkifyCount` | Examples/Scripts/Python/geant4_parallel2.py:52-55 | there are `ceil(n_events / chunk_size)` chunks, as many as begins (`zip` drops nothing), and never fewer than `j - 1` |
| `ChunkProperties.ChunkifyCovers` | Examples/Scripts/Python/geant4_parallel2.py:53-55 | every event in `[0, n_events)` lies in exactly one chunk, the one at index `event / chunk_size` |
| `ChunkProperties.ChunkifyDefinedIff` | Examples/Scripts/Python/geant4_parallel2.py:52-53 | for `j >= 2` and `n_events >= 0`, the call succeeds exactly when `n_events >= j - 1` |
| `ChunkProperties.NonPositiveWorkersEmpty` | Examples/Scripts/Python/geant4_parallel2.py:52-55 | for `j <= 0` the call either raises ValueError (chunk size 0) or returns the empty tuple, since the chunk size then steps away from `n_events` |
| `ChunkProperties.FiveEventsFourWorkers` | Examples/Scripts/Python/geant4_parallel2.py:50-55 | `chunkify(5, 4)` yields five one-event chunks, more chunks than workers |
| `ChunkProperties.ScriptChunksDefinedIff` | Examples/Scripts/Python/geant4_parallel2.py:61-62 | for any CPU count the main block's call never divides by zero; it succeeds exactly when at most 103 CPUs are reported (so `j - 1 <= 100`), and then its chunks tile `[0, 100)` |

## Left out

- `runGeant4` (geant4_parallel2.py:20-48) is not modelled. It only configures and runs the simulation through the external `acts` bindings and creates an output directory.
- The worker pool is not modelled: `Pool(j)`, `starmap`, `close` and `join` are multiprocessing concurrency. The model stops at the list of chunks handed to `starmap`.
- The timing and `print` of the main block are not modelled, because they are clock reads and output.
- `cpu_count()` is a parameter of `WorkerCount` and `ScriptChunks`: it is a query to the operating system. The NotImplementedError that `multiprocessing.cpu_count()` raises when the count cannot be determined, which stops the script before line 61's `max`, is not modelled. The model also accepts CPU counts of 0 or below, which that query never returns; for those `WorkerCount` gives 2.
- For a negative `n_events` and `j >= 2` the model reproduces Python's result: a negative chunk size and a descending `range`. No tiling property is claimed there, because the script never makes such a call.
- For `j <= 0`, which `WorkerCount` never returns, the divisor `j - 1` is negative. The call then raises ValueError or returns the empty tuple (`NonPositiveWorkersEmpty`); no other property is claimed there.
- Python's dynamic typing is not modelled. Arguments are integers; a float or a non-number `n_events` is outside the model.
- `KalmanVertexUpdater` (Core/include/Acts/Vertexing/KalmanVertexUpdater.hpp) is not part of this model. Its update is double-precision dense matrix algebra with inversions over `Vertex`, `TrackAtVertex` and `LinearizedTrack`, and none of it feeds the chunking rule.
- `MaterialProperties` (Core/include/Acts/Material/MaterialProperties.hpp) is not part of this model. Its state and arithmetic are `float`; the bodies of its constructors, scaling and averaging are not in this header; and it does not feed the chunking rule.
