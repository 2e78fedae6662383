/** The counter values of the resource are Java `Integer`s, and `increment`
    and `incrementCAS` add one with 32-bit two's-complement arithmetic. This
    module models those two operations as written, with the wrap-around, and
    shows that they break the non-negativity every other operation keeps. The
    rest of the model uses the unbounded `Store.Increment` and
    `Store.IncrementCas`, for which `Store.Apply` proves non-negativity. */
module Overflow {
  import opened Outcomes
  import opened Store

  const IntMin: int := -0x8000_0000
  const IntMax: int := 0x7fff_ffff

  predicate IsInt32(x: int) {
    IntMin <= x <= IntMax
  }

  /** The value Java's `int` arithmetic produces for an exact result `x`. */
  function Wrap32(x: int): (r: int)
    ensures IsInt32(r)
    ensures IsInt32(x) ==> r == x
    ensures (r - x) % 0x1_0000_0000 == 0
  {
    (x + 0x8000_0000) % 0x1_0000_0000 - 0x8000_0000
  }

  /** `increment` as written: `oldValue + 1` wraps at the largest `int`. */
  function IncrementAsWritten(m: Counters, name: string): (r: Step)
    ensures name in m && IntMin <= m[name] < IntMax ==> r == Increment(m, name)
    ensures name !in m ==> r == Increment(m, name)
    ensures name in m && m[name] == IntMax ==> r == Step(Ok(IntMin), m[name := IntMin])
  {
    if name in m then
      var v := Wrap32(m[name] + 1);
      Step(Ok(v), m[name := v])
    else
      Step(NotFound, m)
  }

  /** `incrementCAS` as written: `condition + 1` wraps at the largest `int`. */
  function IncrementCasAsWritten(m: Counters, name: string, condition: int): (r: Step)
    requires IsInt32(condition)
    ensures condition < IntMax || name !in m || m[name] != condition ==>
              r == IncrementCas(m, name, condition)
    ensures condition == IntMax && name in m && m[name] == IntMax ==>
              r == Step(Ok(IntMin), m[name := IntMin])
  {
    if condition < 0 then Step(InvalidArgument, m)
    else if name !in m then Step(NotFound, m)
    else if m[name] != condition then Step(PreconditionFailed, m)
    else Step(Ok(Wrap32(condition + 1)), m[name := Wrap32(condition + 1)])
  }

  /** A counter at the largest `int` turns negative on `increment` as
      written, while the corrected operation keeps it non-negative. */
  lemma IncrementAsWrittenGoesNegative()
    ensures var m := map["hits" := IntMax];
            && NonNegative(m)
            && IncrementAsWritten(m, "hits").outcome == Ok(-0x8000_0000)
            && !NonNegative(IncrementAsWritten(m, "hits").counters)
            && Increment(m, "hits").outcome == Ok(0x8000_0000)
            && NonNegative(Increment(m, "hits").counters)
  {
    var m := map["hits" := IntMax];
    assert IncrementAsWritten(m, "hits").counters["hits"] < 0;
  }

  /** The same for `incrementCAS` with the matching condition. */
  lemma IncrementCasAsWrittenGoesNegative()
    ensures var m := map["hits" := IntMax];
            && NonNegative(m)
            && IncrementCasAsWritten(m, "hits", IntMax).outcome == Ok(-0x8000_0000)
            && !NonNegative(IncrementCasAsWritten(m, "hits", IntMax).counters)
            && IncrementCas(m, "hits", IntMax).outcome == Ok(0x8000_0000)
            && NonNegative(IncrementCas(m, "hits", IntMax).counters)
  {
    var m := map["hits" := IntMax];
    assert IncrementCasAsWritten(m, "hits", IntMax).counters["hits"] < 0;
  }
}
