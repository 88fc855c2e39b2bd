# timerange: a verified model of a time-interval value type

This project models package `timerange` of go-timeint. The package has a value type `Range` with two instants, `Start` and `End`. It has a validating constructor, `NewRange`, that panics when the end is before the start. It also has four containment predicates that differ only in whether each endpoint counts as inside: `ClosedContains`, `OpenContains`, `LeftClosedRightOpenContains` and `LeftOpenRightClosedContains`. All four are built from two private helpers. `empty` holds when start equals end. `contains` is the strict-interior test, and it is false on an empty range.

Everything is in `timerange.dfy`, module `TimeRange`:

- An instant is an `int` count of nanoseconds. `time.Time.Before` becomes `<` and `time.Time.Equal` becomes `==`.
- `Range` is a datatype. The Go methods with value receivers are member predicates of that datatype. The private helpers are `Empty` and `Contains`.
- `NewRange` returns `Result<Range>`. It gives `Ok(range)` or `Panic("invalid range")`, and it never clamps or swaps the endpoints.
- The predicates have no precondition. Go code can build a `Range{...}` literal without validation, so every predicate is total over every `Range` value. Being Dafny functions, they are also deterministic.

Each predicate's contract gives its full truth table for three kinds of range:

- a well-formed range (`Start <= End`), where it is the matching mathematical interval;
- an empty range;
- a malformed range (`End < Start`).

The package does not document what the predicates do on a range whose End is before its Start; the model follows the code. On such a range `ClosedContains` matches exactly the two endpoints, `LeftClosedRightOpenContains` matches only the start, `LeftOpenRightClosedContains` matches only the end, and `OpenContains` matches nothing.

## Model

| member | source | states |
|---|---|---|
| `TimeRange.NewRange` | timeint/internal/timerange/range.go:12-17 | succeeds exactly when `a <= b`. On success the range is `(a, b)`, unchanged. Otherwise it panics with "invalid range" |
| `TimeRange.Range.Empty` | timeint/internal/timerange/range.go:19-21 | holds exactly when `Start == End` (Go's `Equal`), that is when neither endpoint is before the other |
| `TimeRange.Range.Contains` | timeint/internal/timerange/range.go:23-28 | holds exactly when `Start < t < End`, on any range. The empty-range guard therefore never changes the answer |
| `TimeRange.Range.ClosedContains` | timeint/internal/timerange/range.go:30-32 | on a well-formed range it is `Start <= t <= End`. On an empty range it is exactly `t == Start`. On a malformed range it matches exactly the two endpoints |
| `TimeRange.Range.OpenContains` | timeint/internal/timerange/range.go:34-36 | holds exactly when `Start < t < End`, for any range, and never on an empty range |
| `TimeRange.Range.LeftClosedRightOpenContains` | timeint/internal/timerange/range.go:38-40 | on a well-formed range it is `Start <= t < End`. It is never true on an empty range, not even at its point. On a malformed range it matches the start alone |
| `TimeRange.Range.LeftOpenRightClosedContains` | timeint/internal/timerange/range.go:42-44 | on a well-formed range it is `Start < t <= End`. It is never true on an empty range, not even at its point. On a malformed range it matches the end alone |
| `TimeRange.NewRangeContainsEndpoints` | timeint/internal/timerange/range.go:12-17 | a range from `NewRange(a, b)` with `a <= b` is well-formed and closed-contains both `a` and `b`. Each half-open predicate contains its closed endpoint exactly when `a < b` |
| `TimeRange.EmptyRangeAsymmetry` | timeint/internal/timerange/range.go:19-44 | on an empty range `(p, p)`, `ClosedContains(t)` holds exactly when `t == p`. The other three predicates are false for every `t`, including `p` |
| `TimeRange.ContainmentNesting` | timeint/internal/timerange/range.go:30-44 | on every range, open membership implies both half-open memberships, and each half-open membership implies closed membership |
| `TimeRange.EndpointsAreTheOnlyDifference` | timeint/internal/timerange/range.go:30-44 | on a non-empty well-formed range, all four predicates agree away from the endpoints. At each endpoint, exactly the predicates that close that side match |
| `TimeRange.ClosedDeterminesRange` | timeint/internal/timerange/range.go:30-32 | two well-formed ranges, empty ones included, with the same closed membership at every instant are equal |
| `TimeRange.ClosedSeparatesEmptyRanges` | timeint/internal/timerange/range.go:19-21 | two distinct empty ranges differ under `ClosedContains` at some instant |
| `TimeRange.EmptyRangesIndistinguishable` | timeint/internal/timerange/range.go:23-28 | any two empty ranges have the same membership under the open and both half-open predicates |
| `TimeRange.LeftClosedRightOpenDeterminesRange` | timeint/internal/timerange/range.go:38-40 | two non-empty well-formed ranges with the same left-closed right-open membership are equal |
| `TimeRange.LeftOpenRightClosedDeterminesRange` | timeint/internal/timerange/range.go:42-44 | two non-empty well-formed ranges with the same left-open right-closed membership are equal |
| `TimeRange.OpenDeterminesRange` | timeint/internal/timerange/range.go:34-36 | two well-formed ranges at least two nanoseconds long with the same open membership are equal |
| `TimeRange.OpenBlindToOneNanosecond` | timeint/internal/timerange/range.go:23-28 | a range one nanosecond long contains no instant under `OpenContains`. So the length bound on `OpenDeterminesRange` is needed |
| `TimeRange.DegenerateRangeTable` | timeint/internal/timerange/range_test.go:92-106 | the degenerate range at the Unix epoch gives, at `t0 - 1ns`, `t0` and `t0 + 1ns`, the results the package's test table expects for each predicate |
| `TimeRange.OneSecondRangeTable` | timeint/internal/timerange/range_test.go:108-134 | the one-second range from the Unix epoch gives, one nanosecond either side of each endpoint, the results the package's test table expects for each predicate |
| `TimeRange.NewRangeExamples` | timeint/internal/timerange/range_test.go:23-48 | `NewRange` accepts the pairs `(t0, t0)`, `(t0, t1)` and `(t1, t1)` and keeps their endpoints. It panics on `(t1, t0)` |

## Left out

- Printing with `fmt`: the zero value `Range{}` and the output of `NewRange` are rendered through Go's `time.Time` string format, which says nothing about interval logic.
- Internals of `time.Time`: locations, monotonic-clock readings and calendar arithmetic. An instant is an integer number of nanoseconds compared with `<` and `==`, so `Unix` and `Add` become integer constants and additions.
- The panic itself: unwinding and `recover` are not modelled. A panic is the `Panic` case of `Result`.
- The test helper `containsFuncChoice.asFunc`: it is dispatch code in the test file, not behaviour of the package. Its truth table appears as `DegenerateRangeTable` and `OneSecondRangeTable`.
