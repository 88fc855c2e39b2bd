/**
 A model of the time-interval value type `Range` of package `timerange`
 (timeint/internal/timerange/range.go).

 An instant is an integer count of nanoseconds: `time.Time.Before` becomes `<`
 and `time.Time.Equal` becomes `==`. A `Range` is a plain value: the validating
 constructor `NewRange` is the only place where `Start <= End` is checked, and
 the four containment predicates are total over every `Range` value, including
 a range built directly with `End < Start`.
 */
module TimeRange {

  /** A point in time, in nanoseconds since the Unix epoch. */
  type Instant = int

  /** One nanosecond and one second, in instants. */
  const Nanosecond: Instant := 1
  const Second: Instant := 1_000_000_000

  /** The message `NewRange` panics with. */
  const InvalidRange: string := "invalid range"

  /** The outcome of a call that may panic: a value, or the panic's message. */
  datatype Result<T> = Ok(value: T) | Panic(message: string)

  /** A time interval from `Start` to `End`; its endpoints may be equal (an empty range). */
  datatype Range = Range(Start: Instant, End: Instant) {

    /** The range holds no interior instant: its two endpoints coincide. */
    predicate Empty()
      // the two endpoints are equal exactly when neither is before the other
      ensures Empty() <==> !(Start < End) && !(End < Start)
    {
      Start == End
    }

    /** The strict interior test shared by the four public predicates; false on an empty range. */
    predicate Contains(t: Instant)
      ensures Contains(t) <==> Start < t < End
    {
      if Empty() then false else Start < t && t < End
    }

    /** Both endpoints count as inside. */
    predicate ClosedContains(t: Instant)
      // a well-formed range, empty or not, is the closed interval [Start, End]
      ensures Start <= End ==> (ClosedContains(t) <==> Start <= t <= End)
      // on an empty range only the single point matches
      ensures Empty() ==> (ClosedContains(t) <==> t == Start)
      // a range with End before Start still matches its two endpoints, and nothing else
      ensures End < Start ==> (ClosedContains(t) <==> t == Start || t == End)
    {
      Start == t || Contains(t) || t == End
    }

    /** Neither endpoint counts as inside. */
    predicate OpenContains(t: Instant)
      ensures OpenContains(t) <==> Start < t < End
      // corollary of the clause above, spelled out for the empty case
      ensures Empty() ==> !OpenContains(t)
    {
      Contains(t)
    }

    /** The start counts as inside, the end does not. */
    predicate LeftClosedRightOpenContains(t: Instant)
      // a well-formed range is [Start, End); an empty one matches nothing, not even its point
      ensures Start <= End ==> (LeftClosedRightOpenContains(t) <==> Start <= t < End)
      // corollary of the clause above, spelled out for the empty case
      ensures Empty() ==> !LeftClosedRightOpenContains(t)
      // a range with End before Start matches its start alone
      ensures End < Start ==> (LeftClosedRightOpenContains(t) <==> t == Start)
    {
      (!Empty() && Start == t) || Contains(t)
    }

    /** The start does not count as inside, the end does. */
    predicate LeftOpenRightClosedContains(t: Instant)
      // a well-formed range is (Start, End]; an empty one matches nothing, not even its point
      ensures Start <= End ==> (LeftOpenRightClosedContains(t) <==> Start < t <= End)
      // corollary of the clause above, spelled out for the empty case
      ensures Empty() ==> !LeftOpenRightClosedContains(t)
      // a range with End before Start matches its end alone
      ensures End < Start ==> (LeftOpenRightClosedContains(t) <==> t == End)
    {
      Contains(t) || (!Empty() && t == End)
    }
  }

  /**
   The validating constructor: the range from `a` to `b`, or a panic when `b`
   is before `a`. It never clamps or swaps the endpoints.
   */
  function NewRange(a: Instant, b: Instant): (r: Result<Range>)
    ensures r.Ok? <==> a <= b
    ensures r.Ok? ==> r.value.Start == a && r.value.End == b
    ensures r.Panic? ==> r.message == InvalidRange
  {
    if b < a then Panic(InvalidRange) else Ok(Range(a, b))
  }

  /** Every range `NewRange` returns is well-formed and contains both of its endpoints under the closed predicate. */
  lemma NewRangeContainsEndpoints(a: Instant, b: Instant)
    requires a <= b
    ensures NewRange(a, b).Ok?
    ensures NewRange(a, b).value.Start <= NewRange(a, b).value.End
    ensures NewRange(a, b).value.ClosedContains(a) && NewRange(a, b).value.ClosedContains(b)
    ensures NewRange(a, b).value.LeftClosedRightOpenContains(a) <==> a < b
    ensures NewRange(a, b).value.LeftOpenRightClosedContains(b) <==> a < b
  {
  }

  /**
   The deliberate asymmetry on an empty range `(p, p)`: the closed predicate
   matches exactly the point `p`, the other three match nothing, `p` included.
   */
  lemma EmptyRangeAsymmetry(p: Instant, t: Instant)
    ensures Range(p, p).ClosedContains(t) <==> t == p
    ensures !Range(p, p).OpenContains(t)
    ensures !Range(p, p).LeftClosedRightOpenContains(t)
    ensures !Range(p, p).LeftOpenRightClosedContains(t)
  {
  }

  /**
   The predicates are nested, on every range: open membership implies both
   half-open ones, and each half-open membership implies closed membership.
   */
  lemma ContainmentNesting(r: Range, t: Instant)
    ensures r.OpenContains(t) ==> r.LeftClosedRightOpenContains(t)
    ensures r.OpenContains(t) ==> r.LeftOpenRightClosedContains(t)
    ensures r.LeftClosedRightOpenContains(t) ==> r.ClosedContains(t)
    ensures r.LeftOpenRightClosedContains(t) ==> r.ClosedContains(t)
  {
  }

  /**
   On a non-empty well-formed range the four predicates differ only at the
   endpoints: each endpoint is added to the open interior exactly when the
   predicate closes that side.
   */
  lemma EndpointsAreTheOnlyDifference(r: Range, t: Instant)
    requires r.Start < r.End
    ensures t != r.Start && t != r.End ==>
      r.ClosedContains(t) == r.OpenContains(t) &&
      r.LeftClosedRightOpenContains(t) == r.OpenContains(t) &&
      r.LeftOpenRightClosedContains(t) == r.OpenContains(t)
    ensures r.ClosedContains(r.Start) && r.LeftClosedRightOpenContains(r.Start)
    ensures !r.OpenContains(r.Start) && !r.LeftOpenRightClosedContains(r.Start)
    ensures r.ClosedContains(r.End) && r.LeftOpenRightClosedContains(r.End)
    ensures !r.OpenContains(r.End) && !r.LeftClosedRightOpenContains(r.End)
  {
  }

  /**
   Closed membership determines a well-formed range, an empty one included:
   two well-formed ranges that agree on `ClosedContains` at every instant are
   the same range.
   */
  lemma ClosedDeterminesRange(r1: Range, r2: Range)
    requires r1.Start <= r1.End && r2.Start <= r2.End
    requires forall t: Instant :: r1.ClosedContains(t) == r2.ClosedContains(t)
    ensures r1 == r2
  {
    assert r1.ClosedContains(r1.Start) && r1.ClosedContains(r1.End);
    assert r2.ClosedContains(r2.Start) && r2.ClosedContains(r2.End);
  }

  /**
   Two distinct empty ranges are told apart by the closed predicate, at the
   point of either one: the consequence of `EmptyRangeAsymmetry` for the closed
   predicate, and the empty-range case of `ClosedDeterminesRange`.
   */
  lemma ClosedSeparatesEmptyRanges(p: Instant, q: Instant)
    requires p != q
    ensures exists t: Instant :: Range(p, p).ClosedContains(t) != Range(q, q).ClosedContains(t)
  {
    EmptyRangeAsymmetry(p, p);
    EmptyRangeAsymmetry(q, p);
  }

  /**
   The other three predicates cannot tell empty ranges apart: every empty
   range has the same (empty) membership under each of them, as
   `EmptyRangeAsymmetry` shows for each range.
   */
  lemma EmptyRangesIndistinguishable(p: Instant, q: Instant, t: Instant)
    ensures Range(p, p).OpenContains(t) == Range(q, q).OpenContains(t)
    ensures Range(p, p).LeftClosedRightOpenContains(t) == Range(q, q).LeftClosedRightOpenContains(t)
    ensures Range(p, p).LeftOpenRightClosedContains(t) == Range(q, q).LeftOpenRightClosedContains(t)
  {
    EmptyRangeAsymmetry(p, t);
    EmptyRangeAsymmetry(q, t);
  }

  /**
   Left-closed right-open membership determines a non-empty well-formed range:
   its start is the least member and its end the first instant after the
   members that is not one.
   */
  lemma LeftClosedRightOpenDeterminesRange(r1: Range, r2: Range)
    requires r1.Start < r1.End && r2.Start < r2.End
    requires forall t: Instant :: r1.LeftClosedRightOpenContains(t) == r2.LeftClosedRightOpenContains(t)
    ensures r1 == r2
  {
    assert r1.LeftClosedRightOpenContains(r1.Start) && r2.LeftClosedRightOpenContains(r2.Start);
    assert r1.Start == r2.Start;
    assert !r1.LeftClosedRightOpenContains(r1.End) && !r2.LeftClosedRightOpenContains(r2.End);
  }

  /**
   Left-open right-closed membership determines a non-empty well-formed range:
   its end is the greatest member and its start the last instant before the
   members that is not one.
   */
  lemma LeftOpenRightClosedDeterminesRange(r1: Range, r2: Range)
    requires r1.Start < r1.End && r2.Start < r2.End
    requires forall t: Instant :: r1.LeftOpenRightClosedContains(t) == r2.LeftOpenRightClosedContains(t)
    ensures r1 == r2
  {
    assert r1.LeftOpenRightClosedContains(r1.End) && r2.LeftOpenRightClosedContains(r2.End);
    assert r1.End == r2.End;
    assert !r1.LeftOpenRightClosedContains(r1.Start) && !r2.LeftOpenRightClosedContains(r2.Start);
  }

  /**
   Open membership determines a well-formed range only when the range has an
   interior instant, that is when its end is at least two nanoseconds after its
   start; a range one nanosecond long is as empty under `OpenContains` as an
   empty range.
   */
  lemma OpenDeterminesRange(r1: Range, r2: Range)
    requires r1.Start + Nanosecond < r1.End && r2.Start + Nanosecond < r2.End
    requires forall t: Instant :: r1.OpenContains(t) == r2.OpenContains(t)
    ensures r1 == r2
  {
    assert r1.OpenContains(r1.Start + 1) && r2.OpenContains(r2.Start + 1);
    assert !r1.OpenContains(r1.Start) && !r2.OpenContains(r2.Start);
    assert r1.Start == r2.Start;
    assert r1.OpenContains(r1.End - 1) && r2.OpenContains(r2.End - 1);
    assert !r1.OpenContains(r1.End) && !r2.OpenContains(r2.End);
  }

  /** A range one nanosecond long has no instant inside it under `OpenContains`. */
  lemma OpenBlindToOneNanosecond(p: Instant, t: Instant)
    ensures !Range(p, p + Nanosecond).OpenContains(t)
  {
  }

  /** The degenerate range at the Unix epoch, against every predicate, one nanosecond either side of it. */
  lemma DegenerateRangeTable()
    ensures var r, t0 := Range(0, 0), 0;
      && !r.ClosedContains(t0 - Nanosecond) && r.ClosedContains(t0) && !r.ClosedContains(t0 + Nanosecond)
      && !r.OpenContains(t0 - Nanosecond) && !r.OpenContains(t0) && !r.OpenContains(t0 + Nanosecond)
      && !r.LeftClosedRightOpenContains(t0 - Nanosecond) && !r.LeftClosedRightOpenContains(t0)
      && !r.LeftClosedRightOpenContains(t0 + Nanosecond)
      && !r.LeftOpenRightClosedContains(t0 - Nanosecond) && !r.LeftOpenRightClosedContains(t0)
      && !r.LeftOpenRightClosedContains(t0 + Nanosecond)
  {
  }

  /**
   The one-second range from the Unix epoch, against every predicate, one
   nanosecond either side of each endpoint.
   */
  lemma OneSecondRangeTable()
    ensures var t0, t1 := 0, Second; var r := Range(t0, t1);
      && !r.ClosedContains(t0 - Nanosecond) && r.ClosedContains(t0) && r.ClosedContains(t0 + Nanosecond)
      && r.ClosedContains(t1 - Nanosecond) && r.ClosedContains(t1) && !r.ClosedContains(t1 + Nanosecond)
      && !r.OpenContains(t0 - Nanosecond) && !r.OpenContains(t0) && r.OpenContains(t0 + Nanosecond)
      && r.OpenContains(t1 - Nanosecond) && !r.OpenContains(t1) && !r.OpenContains(t1 + Nanosecond)
      && !r.LeftClosedRightOpenContains(t0 - Nanosecond) && r.LeftClosedRightOpenContains(t0)
      && r.LeftClosedRightOpenContains(t0 + Nanosecond) && r.LeftClosedRightOpenContains(t1 - Nanosecond)
      && !r.LeftClosedRightOpenContains(t1) && !r.LeftClosedRightOpenContains(t1 + Nanosecond)
      && !r.LeftOpenRightClosedContains(t0 - Nanosecond) && !r.LeftOpenRightClosedContains(t0)
      && r.LeftOpenRightClosedContains(t0 + Nanosecond) && r.LeftOpenRightClosedContains(t1 - Nanosecond)
      && r.LeftOpenRightClosedContains(t1) && !r.LeftOpenRightClosedContains(t1 + Nanosecond)
  {
  }

  /** `NewRange` accepts the test's three well-ordered pairs and rejects the reversed one. */
  lemma NewRangeExamples()
    ensures NewRange(0, 0) == Ok(Range(0, 0))
    ensures NewRange(0, Second) == Ok(Range(0, Second))
    ensures NewRange(Second, Second) == Ok(Range(Second, Second))
    ensures NewRange(Second, 0).Panic?
  {
  }
}
