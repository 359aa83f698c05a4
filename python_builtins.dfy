/** The few Python built-ins that the event-chunking rule is made of, with
    Python's own semantics on unbounded integers: `//` rounds toward minus
    infinity, `range` refuses a zero step, `zip` stops at the shorter input. */
module PyBuiltins {

  /** The two exceptions the chunking rule can raise. */
  datatype PyError = ZeroDivisionError | ValueError

  datatype Result<T> = Ok(value: T) | Err(error: PyError)

  /** `min(a, b)` on two integers. */
  function Min(a: int, b: int): (r: int)
    ensures r <= a && r <= b
    ensures r == a || r == b
  {
    if b < a then b else a
  }

  /** `max(a, b)` on two integers. */
  function Max(a: int, b: int): (r: int)
    ensures r >= a && r >= b
    ensures r == a || r == b
  {
    if b > a then b else a
  }

  /** `a // b`: the floor of the exact quotient, or ZeroDivisionError.
      Dafny's `/` is Euclidean, which agrees with the floor only for a
      positive divisor, so a negative divisor is turned around first. */
  function FloorDiv(a: int, b: int): (r: Result<int>)
    ensures r.Err? <==> b == 0
    ensures r.Err? ==> r.error == ZeroDivisionError
    ensures r.Ok? && b > 0 ==> b * r.value <= a < b * r.value + b
    ensures r.Ok? && b < 0 ==> b * r.value >= a > b * r.value + b
  {
    if b == 0 then Err(ZeroDivisionError)
    else if b > 0 then Ok(a / b)
    else Ok((-a) / (-b))
  }

  /** The elements of `range(start, stop, step)` for a non-zero step: the
      arithmetic progression from `start`, kept while it is below `stop`
      (ascending) or above it (descending). */
  function RangeFrom(start: int, stop: int, step: int): (r: seq<int>)
    requires step != 0
    ensures forall i :: 0 <= i < |r| ==> r[i] == start + i * step
    ensures forall i :: 0 <= i < |r| ==> (if step > 0 then r[i] < stop else r[i] > stop)
    ensures step > 0 ==> start + |r| * step >= stop
    ensures step < 0 ==> start + |r| * step <= stop
    decreases if step > 0 then stop - start else start - stop
  {
    if (step > 0 && start < stop) || (step < 0 && start > stop) then
      var rest := RangeFrom(start + step, stop, step);
      assert forall i :: 1 <= i <= |rest| ==> start + step + (i - 1) * step == start + i * step by {
        forall i | 1 <= i <= |rest| ensures start + step + (i - 1) * step == start + i * step {
          assert (i - 1) * step == i * step - step;
        }
      }
      assert start + step + |rest| * step == start + (|rest| + 1) * step;
      [start] + rest
    else
      []
  }

  /** `range(start, stop, step)`: ValueError for a zero step. */
  function Range(start: int, stop: int, step: int): (r: Result<seq<int>>)
    ensures r.Err? <==> step == 0
    ensures r.Err? ==> r.error == ValueError
    ensures r.Ok? ==> forall i :: 0 <= i < |r.value| ==> r.value[i] == start + i * step
    ensures r.Ok? ==> forall i :: 0 <= i < |r.value| ==> (if step > 0 then r.value[i] < stop else r.value[i] > stop)
    ensures r.Ok? && step > 0 ==> start + |r.value| * step >= stop
    ensures r.Ok? && step < 0 ==> start + |r.value| * step <= stop
  {
    if step == 0 then Err(ValueError) else Ok(RangeFrom(start, stop, step))
  }

  /** `zip(a, b)`: pairs elements at equal positions, stopping at the end of
      the shorter sequence. */
  function Zip<A, B>(a: seq<A>, b: seq<B>): (r: seq<(A, B)>)
    ensures |r| == Min(|a|, |b|)
    ensures forall i :: 0 <= i < |r| ==> r[i] == (a[i], b[i])
  {
    if a == [] || b == [] then [] else [(a[0], b[0])] + Zip(a[1..], b[1..])
  }
}
