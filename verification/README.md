# NamedCounter in Dafny

A model of the named-counter REST resource of Innometrics/NamedCounter: a
store of independently named integer counters with create, read, increment
and delete, and conditional ("compare-and-swap") variants of delete and
increment that act only when the counter holds a caller-supplied value.
The resource keeps one `ConcurrentSkipListMap<String, Integer>` field and
answers every call with one HTTP status from a small closed set.

Files:

- `outcomes.dfy` (module `Outcomes`): the `Outcome` datatype, one variant per
  response the resource builds, and the status code of each.
- `key_order.dfy` (module `KeyOrder`): `Less`, the natural order of Java
  strings in which the map keeps its keys, and proofs that it is a strict
  total order.
- `store.dfy` (module `Store`): the store as a value. One function per
  operation gives the outcome and the map afterwards. `Apply` and `Run`
  describe any call and any sequence of calls. `Listed` says what a listing
  of the store is.
- `store_properties.dfy` (module `StoreProperties`): properties across
  several calls: idempotent `init`, `k` increments give `k`, values stay
  non-negative, only `init` creates names, a listing is unique.
- `named_counter.dfy` (module `NamedCounters`): class `NamedCounter` with the
  mutable `counters` map field. The atomic map primitives the source calls
  (`get`, `putIfAbsent`, `remove`, conditional `remove`, `computeIfPresent`,
  `replace`) are methods, and each resource operation is a method built
  from them, proved to answer and leave exactly what `Store` prescribes.
- `overflow.dfy` (module `Overflow`): `increment` and `incrementCAS` with
  Java's 32-bit wrap-around, as written (see Findings).

Two facts about the code that the model keeps:

- A precondition failure (417) carries only a message, not the current value.
- `init` answers 201 CREATED, although its API annotation lists 200 and 409
  (`StoreProperties.StatusesAsAnnotated` records this).

The conditional operations run a `for(;;)` retry loop in the source. With
one call at a time the entry cannot change between the read and the atomic
conditional remove or replace, so that atomic call always succeeds on the
first pass. The methods are therefore straight-line and assert that the
swap succeeded.

## Model

| member | source | states |
|---|---|---|
| Outcomes.Status | src/main/java/se/olby/innometrics/NamedCounter.java:113-287 | each outcome gets one of 200, 201, 400, 404, 409, 417; success statuses (below 300) exactly for Ok and Created |
| Outcomes.StatusIdentifiesKind | src/main/java/se/olby/innometrics/NamedCounter.java:113-287 | two outcomes share a status code exactly when they are the same variant |
| KeyOrder.LessIrreflexive | src/main/java/se/olby/innometrics/NamedCounter.java:32 | no name precedes itself in the map's key order |
| KeyOrder.LessAsymmetric | src/main/java/se/olby/innometrics/NamedCounter.java:32 | if a precedes b then b does not precede a |
| KeyOrder.LessTransitive | src/main/java/se/olby/innometrics/NamedCounter.java:32 | the key order is transitive |
| KeyOrder.LessTotal | src/main/java/se/olby/innometrics/NamedCounter.java:32 | of two distinct names one precedes the other |
| Store.Read | src/main/java/se/olby/innometrics/NamedCounter.java:113-124 | Ok with the stored value exactly when the name is present, otherwise NotFound; the map is unchanged |
| Store.Init | src/main/java/se/olby/innometrics/NamedCounter.java:138-149 | Created exactly when the name is absent or holds 0, otherwise Conflict; an absent name is added at 0, a present one is left as is; no other entry changes |
| Store.Delete | src/main/java/se/olby/innometrics/NamedCounter.java:164-175 | afterwards the name is absent; Ok with the removed value if it was present, otherwise NotFound and the map unchanged; no other entry changes |
| Store.DeleteCas | src/main/java/se/olby/innometrics/NamedCounter.java:193-219 | negative condition gives InvalidArgument before any lookup; then NotFound, PreconditionFailed on mismatch (map unchanged); Ok(condition) with the entry removed exactly when it held the condition |
| Store.Increment | src/main/java/se/olby/innometrics/NamedCounter.java:233-244 | a present counter becomes old+1 and Ok(old+1) is answered; an absent name gives NotFound and is not created; no other entry changes |
| Store.IncrementCas | src/main/java/se/olby/innometrics/NamedCounter.java:262-288 | negative condition gives InvalidArgument before any lookup; then NotFound, PreconditionFailed on mismatch (map unchanged); succeeds with Ok(condition+1) and stores condition+1 exactly when the counter held the condition |
| Store.Apply | src/main/java/se/olby/innometrics/NamedCounter.java:138-288 | any call touches only its own name, keeps all values non-negative, never lowers a value that survives it, and only init brings a name in, at 0 |
| StoreProperties.InitIdempotent | src/main/java/se/olby/innometrics/NamedCounter.java:139-143 | a repeated init answers and leaves exactly what the first one did |
| StoreProperties.InitConflictsAfterIncrement | src/main/java/se/olby/innometrics/NamedCounter.java:139-148 | after an increment, init on that counter is a Conflict |
| StoreProperties.ReadAfterDeleteIsNotFound | src/main/java/se/olby/innometrics/NamedCounter.java:164-219 | after a successful delete or conditional delete, read gives NotFound |
| StoreProperties.SecondIncrementCasFails | src/main/java/se/olby/innometrics/NamedCounter.java:270-287 | of two conditional increments with the same condition the first succeeds and the second gets PreconditionFailed |
| StoreProperties.IncrementsAccumulate | src/main/java/se/olby/innometrics/NamedCounter.java:233-244 | k increments of a present counter raise it by exactly k |
| StoreProperties.IncrementsFromInit | src/main/java/se/olby/innometrics/NamedCounter.java:138-244 | init of a new name followed by k increments leaves it at k |
| StoreProperties.RunKeepsNonNegative | src/main/java/se/olby/innometrics/NamedCounter.java:139-283 | no sequence of calls makes a stored value negative |
| StoreProperties.RunOnlyInitCreates | src/main/java/se/olby/innometrics/NamedCounter.java:139 | a name that no call initialised never appears in the store |
| StoreProperties.ListedOnce | src/main/java/se/olby/innometrics/NamedCounter.java:84-90 | a listing names each counter at most once |
| StoreProperties.HeadIsLeast | src/main/java/se/olby/innometrics/NamedCounter.java:84-90 | the first listed name precedes every other name in the store |
| StoreProperties.ListedEmpty | src/main/java/se/olby/innometrics/NamedCounter.java:84-90 | a listing is empty exactly when the store is |
| StoreProperties.SameFirstEntry | src/main/java/se/olby/innometrics/NamedCounter.java:84-90 | two listings of the same non-empty store begin with the same entry |
| StoreProperties.ListedTail | src/main/java/se/olby/innometrics/NamedCounter.java:84-90 | a listing without its first entry lists the store without that name |
| StoreProperties.ListedUnique | src/main/java/se/olby/innometrics/NamedCounter.java:84-90 | the store determines its listing: two listings of the same map are equal |
| StoreProperties.ScenarioInitIncrementDelete | src/main/java/se/olby/innometrics/NamedCounter.java:113-244 | init, read, increment, conditional delete at 1, read answer Created, Ok(0), Ok(1), Ok(1), NotFound |
| StoreProperties.ScenarioRefusals | src/main/java/se/olby/innometrics/NamedCounter.java:193-281 | negative condition on an absent name gives InvalidArgument; condition 0 against 5 gives PreconditionFailed without a value; increment of an absent name gives NotFound |
| StoreProperties.StatusesAsAnnotated | src/main/java/se/olby/innometrics/NamedCounter.java:108-261 | read, delete and increment answer only 200 or 404, the conditional operations only 200, 400, 404 or 417, as their annotations list; init answers 201 or 409, and 201 (not the annotated 200) on a new name |
| NamedCounters.LeastKey | src/main/java/se/olby/innometrics/NamedCounter.java:84 | returns a member of the key set that precedes every other member |
| NamedCounters.NamedCounter.constructor | src/main/java/se/olby/innometrics/NamedCounter.java:32 | the store starts empty and valid |
| NamedCounters.NamedCounter.Get | src/main/java/se/olby/innometrics/NamedCounter.java:202 | Some(value) exactly when the name is present, with its stored value |
| NamedCounters.NamedCounter.PutIfAbsent | src/main/java/se/olby/innometrics/NamedCounter.java:139 | returns the previous value if present and changes nothing; otherwise stores the initial value |
| NamedCounters.NamedCounter.Remove | src/main/java/se/olby/innometrics/NamedCounter.java:165 | removes the name and returns its previous value, if any |
| NamedCounters.NamedCounter.RemoveIfEquals | src/main/java/se/olby/innometrics/NamedCounter.java:214 | removes the entry exactly when it holds the expected value, and says whether it did |
| NamedCounters.NamedCounter.ComputeIfPresent | src/main/java/se/olby/innometrics/NamedCounter.java:234 | replaces a present value by its remapping and returns the new value; an absent name is left absent |
| NamedCounters.NamedCounter.Replace | src/main/java/se/olby/innometrics/NamedCounter.java:283 | swaps in the replacement exactly when the entry holds the expected value, and says whether it did |
| NamedCounters.NamedCounter.List | src/main/java/se/olby/innometrics/NamedCounter.java:78-99 | the result is the listing of the current store: every counter once, with its value, in ascending name order |
| NamedCounters.NamedCounter.Read | src/main/java/se/olby/innometrics/NamedCounter.java:113-124 | answers what Store.Read prescribes and changes nothing |
| NamedCounters.NamedCounter.Init | src/main/java/se/olby/innometrics/NamedCounter.java:138-149 | answers and leaves the map exactly as Store.Init prescribes; values stay non-negative |
| NamedCounters.NamedCounter.Delete | src/main/java/se/olby/innometrics/NamedCounter.java:164-175 | answers and leaves the map exactly as Store.Delete prescribes; values stay non-negative |
| NamedCounters.NamedCounter.DeleteCas | src/main/java/se/olby/innometrics/NamedCounter.java:193-219 | answers and leaves the map exactly as Store.DeleteCas prescribes; the conditional removal succeeds on its first attempt |
| NamedCounters.NamedCounter.Increment | src/main/java/se/olby/innometrics/NamedCounter.java:233-244 | answers and leaves the map exactly as Store.Increment prescribes; values stay non-negative |
| NamedCounters.NamedCounter.IncrementCas | src/main/java/se/olby/innometrics/NamedCounter.java:262-288 | answers and leaves the map exactly as Store.IncrementCas prescribes; the conditional replace succeeds on its first attempt |
| Overflow.Wrap32 | src/main/java/se/olby/innometrics/NamedCounter.java:234 | the result of Java int arithmetic: in 32-bit range, equal to the exact value when that is in range, congruent to it modulo 2^32 |
| Overflow.IncrementAsWritten | src/main/java/se/olby/innometrics/NamedCounter.java:233-244 | agrees with Store.Increment on an absent name and below the largest int; when the counter holds the largest int, answers and stores the smallest int and leaves every other entry unchanged |
| Overflow.IncrementCasAsWritten | src/main/java/se/olby/innometrics/NamedCounter.java:262-288 | agrees with Store.IncrementCas unless the condition is the largest int and the counter holds it; then answers and stores the smallest int and leaves every other entry unchanged |
| Overflow.IncrementAsWrittenGoesNegative | src/main/java/se/olby/innometrics/NamedCounter.java:234 | a counter at 2147483647 becomes -2147483648 under increment as written, but stays non-negative under Store.Increment |
| Overflow.IncrementCasAsWrittenGoesNegative | src/main/java/se/olby/innometrics/NamedCounter.java:283-285 | the same for incrementCAS with condition 2147483647 |

## Left out

- Concurrency: the non-blocking skip-list map, per-key linearizability and spinning in the retry loops under contention. Every operation is one atomic step, so the retry branch of the `for(;;)` loops is never taken.
- NamedCounters.NamedCounter.List: the weakly consistent walk over a map that changes while it is listed, and the `value != null` guard that only matters under such races. Dafny map keys form an unordered set, so the in-order key walk is modelled by repeatedly picking the least remaining key.
- NamedCounters.NamedCounter.Increment and NamedCounters.NamedCounter.IncrementCas: use unbounded integers, so they do not model the 32-bit wrap-around of `oldValue + 1` and `condition + 1`; the wrap-around is modelled separately in `Overflow`.
- Key order: names are sequences of Unicode scalar values compared by value, whereas Java compares UTF-16 code units; the two orders differ only for names mixing supplementary characters with characters from U+E000 to U+FFFF.
- The JAX-RS and Swagger annotations, `Response` construction and the JSON `Error` wrapper with its messages; outcomes are the `Outcome` datatype.
- The JSON streaming of `list`: it returns the sequence of (name, value) pairs.
- `readme()`, which serves a classpath resource.
- `Server.java` (Jetty bootstrap, the `PORT` environment variable) and `NamedCounterApplication.java` (Swagger configuration, resource registration): process and framework plumbing.
- Names: the source accepts any name that fills the `{counter}` path segment, blank ones included, and the model accepts any string.

## Findings

Overflow.IncrementAsWrittenGoesNegative and Overflow.IncrementCasAsWrittenGoesNegative exhibit the inputs below; Store.Apply proves that the corrected operations keep every value non-negative.

| source | as written | input that shows it | evidently intended | confidence | as-written member | corrected member |
|---|---|---|---|---|---|---|
| src/main/java/se/olby/innometrics/NamedCounter.java:234 | `oldValue + 1` on an `Integer` wraps to -2147483648 | a counter holding 2147483647, then `increment` | counters are never negative, as created at 0 and only incremented | not executed; follows from Java int semantics | Overflow.IncrementAsWritten | Store.Increment |
| src/main/java/se/olby/innometrics/NamedCounter.java:283-285 | `condition + 1` on an `int` wraps to -2147483648 | a counter holding 2147483647, then `incrementCAS` with condition 2147483647 | counters are never negative | not executed; follows from Java int semantics | Overflow.IncrementCasAsWritten | Store.IncrementCas |
