/** The counter store as a value: one function per resource operation, each
    giving the outcome and the map of counters afterwards. Every operation is
    atomic here, so these functions are the sequential specification the
    methods of `NamedCounters.NamedCounter` are proved against. */
module Store {
  import opened Outcomes
  import opened KeyOrder

  /** The `counters` field: counter name to current value. */
  type Counters = map<string, int>

  /** What one operation answers and what it leaves in the store. */
  datatype Step = Step(outcome: Outcome, counters: Counters)

  /** Every stored value is non-negative: values are created as 0 and only
      ever incremented. */
  predicate NonNegative(m: Counters) {
    forall k :: k in m ==> m[k] >= 0
  }

  /** `m'` agrees with `m` on every name other than `name`. */
  ghost predicate OnlyTouches(m: Counters, m': Counters, name: string) {
    forall k :: k != name ==> (k in m <==> k in m') && (k in m ==> m[k] == m'[k])
  }

  /** GET counters/{name}. */
  function Read(m: Counters, name: string): (r: Step)
    ensures r.counters == m
    ensures r.outcome.Ok? <==> name in m
    ensures name in m ==> r.outcome.value == m[name]
    ensures name !in m ==> r.outcome == NotFound
  {
    if name in m then Step(Ok(m[name]), m) else Step(NotFound, m)
  }

  /** PUT counters/{name}: create at 0 unless present; a counter already at 0
      is accepted again, so the call is idempotent. */
  function Init(m: Counters, name: string): (r: Step)
    ensures r.outcome == Created <==> name !in m || m[name] == 0
    ensures r.outcome == Created || r.outcome == Conflict
    ensures name in r.counters && (name !in m ==> r.counters[name] == 0)
    ensures name in m ==> r.counters == m
    ensures OnlyTouches(m, r.counters, name)
  {
    if name !in m then Step(Created, m[name := 0])
    else if m[name] == 0 then Step(Created, m)
    else Step(Conflict, m)
  }

  /** DELETE counters/{name}: unconditional removal. */
  function Delete(m: Counters, name: string): (r: Step)
    ensures name !in r.counters
    ensures OnlyTouches(m, r.counters, name)
    ensures name in m ==> r.outcome == Ok(m[name])
    ensures name !in m ==> r.outcome == NotFound && r.counters == m
  {
    if name in m then Step(Ok(m[name]), m - {name}) else Step(NotFound, m)
  }

  /** DELETE counters/{name}/{condition}: removal only when the counter holds
      `condition`; a negative condition is refused before any lookup. */
  function DeleteCas(m: Counters, name: string, condition: int): (r: Step)
    ensures condition < 0 ==> r == Step(InvalidArgument, m)
    ensures condition >= 0 && name !in m ==> r == Step(NotFound, m)
    ensures condition >= 0 && name in m && m[name] != condition ==> r == Step(PreconditionFailed, m)
    ensures r.outcome.Ok? <==> condition >= 0 && name in m && m[name] == condition
    ensures r.outcome.Ok? ==> r.outcome.value == condition && r.counters == m - {name}
    ensures OnlyTouches(m, r.counters, name)
  {
    if condition < 0 then Step(InvalidArgument, m)
    else if name !in m then Step(NotFound, m)
    else if m[name] != condition then Step(PreconditionFailed, m)
    else Step(Ok(condition), m - {name})
  }

  /** POST counters/{name}: add one to a present counter. */
  function Increment(m: Counters, name: string): (r: Step)
    ensures r.outcome.Ok? <==> name in m
    ensures name in m ==> r.outcome.value == m[name] + 1
                          && name in r.counters && r.counters[name] == m[name] + 1
    ensures name !in m ==> r == Step(NotFound, m)
    ensures OnlyTouches(m, r.counters, name)
  {
    if name in m then Step(Ok(m[name] + 1), m[name := m[name] + 1]) else Step(NotFound, m)
  }

  /** POST counters/{name}/{condition}: add one only when the counter holds
      `condition`; a negative condition is refused before any lookup. */
  function IncrementCas(m: Counters, name: string, condition: int): (r: Step)
    ensures condition < 0 ==> r == Step(InvalidArgument, m)
    ensures condition >= 0 && name !in m ==> r == Step(NotFound, m)
    ensures condition >= 0 && name in m && m[name] != condition ==> r == Step(PreconditionFailed, m)
    ensures r.outcome.Ok? <==> condition >= 0 && name in m && m[name] == condition
    ensures r.outcome.Ok? ==> r.outcome.value == condition + 1
                              && r.counters == m[name := condition + 1]
    ensures OnlyTouches(m, r.counters, name)
  {
    if condition < 0 then Step(InvalidArgument, m)
    else if name !in m then Step(NotFound, m)
    else if m[name] != condition then Step(PreconditionFailed, m)
    else Step(Ok(condition + 1), m[name := condition + 1])
  }

  /** One call of the resource on a named counter. */
  datatype Op =
    | ReadOp(name: string)
    | InitOp(name: string)
    | DeleteOp(name: string)
    | DeleteCasOp(name: string, condition: int)
    | IncrementOp(name: string)
    | IncrementCasOp(name: string, condition: int)

  /** Any single call: it touches only its own counter, keeps values
      non-negative, never lowers a value that survives it, and only `init`
      brings a name into the store, at 0. */
  function Apply(m: Counters, op: Op): (r: Step)
    ensures OnlyTouches(m, r.counters, op.name)
    ensures NonNegative(m) ==> NonNegative(r.counters)
    ensures forall k :: k in m && k in r.counters ==> m[k] <= r.counters[k]
    ensures forall k :: k !in m && k in r.counters ==> op == InitOp(k) && r.counters[k] == 0
  {
    match op
    case ReadOp(name) => Read(m, name)
    case InitOp(name) => Init(m, name)
    case DeleteOp(name) => Delete(m, name)
    case DeleteCasOp(name, condition) => DeleteCas(m, name, condition)
    case IncrementOp(name) => Increment(m, name)
    case IncrementCasOp(name, condition) => IncrementCas(m, name, condition)
  }

  /** The store after a sequence of calls, one after another. */
  function Run(m: Counters, ops: seq<Op>): Counters
    decreases |ops|
  {
    if ops == [] then m else Run(Apply(m, ops[0]).counters, ops[1..])
  }

  /** `entries` is what GET counters/ emits for `m`: every present name
      exactly once, with its value, in ascending name order. */
  predicate Listed(entries: seq<(string, int)>, m: Counters) {
    && (forall i, j :: 0 <= i < j < |entries| ==> Less(entries[i].0, entries[j].0))
    && (forall i :: 0 <= i < |entries| ==> entries[i].0 in m && entries[i].1 == m[entries[i].0])
    && (forall k :: k in m ==> exists i :: 0 <= i < |entries| && entries[i].0 == k)
  }
}
