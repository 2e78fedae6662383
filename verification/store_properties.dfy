/** Properties of the counter store that relate several calls. */
module StoreProperties {
  import opened Outcomes
  import opened KeyOrder
  import opened Store

  /** Repeating `init` answers and leaves exactly what the first call did. */
  lemma InitIdempotent(m: Counters, name: string)
    ensures Init(Init(m, name).counters, name) == Init(m, name)
  {
  }

  /** Once a counter has been incremented, `init` on it is a conflict. */
  lemma InitConflictsAfterIncrement(m: Counters, name: string)
    requires NonNegative(m) && name in m
    ensures Init(Increment(m, name).counters, name).outcome == Conflict
  {
  }

  /** After a successful `delete` or `deleteCAS`, `read` finds nothing. */
  lemma ReadAfterDeleteIsNotFound(m: Counters, name: string, condition: int)
    ensures Delete(m, name).outcome.Ok? ==> Read(Delete(m, name).counters, name).outcome == NotFound
    ensures DeleteCas(m, name, condition).outcome.Ok? ==>
              Read(DeleteCas(m, name, condition).counters, name).outcome == NotFound
  {
  }

  /** Of two `incrementCAS` calls with the same condition, only the first
      succeeds; the second sees a value that no longer matches. */
  lemma SecondIncrementCasFails(m: Counters, name: string, condition: int)
    requires name in m && m[name] == condition && condition >= 0
    ensures IncrementCas(m, name, condition).outcome == Ok(condition + 1)
    ensures IncrementCas(IncrementCas(m, name, condition).counters, name, condition).outcome
            == PreconditionFailed
  {
  }

  /** `k` calls of the same operation. */
  function Repeat(op: Op, k: nat): seq<Op> {
    if k == 0 then [] else [op] + Repeat(op, k - 1)
  }

  /** `k` increments of a present counter raise it by exactly `k`. */
  lemma {:induction false} IncrementsAccumulate(m: Counters, name: string, k: nat)
    requires name in m
    ensures name in Run(m, Repeat(IncrementOp(name), k))
    ensures Run(m, Repeat(IncrementOp(name), k))[name] == m[name] + k
  {
    if k > 0 {
      var ops := Repeat(IncrementOp(name), k);
      assert ops[0] == IncrementOp(name) && ops[1..] == Repeat(IncrementOp(name), k - 1);
      IncrementsAccumulate(Increment(m, name).counters, name, k - 1);
    }
  }

  /** `init` followed by `k` increments leaves the counter at `k`. */
  lemma {:induction false} IncrementsFromInit(m: Counters, name: string, k: nat)
    requires name !in m
    ensures name in Run(m, [InitOp(name)] + Repeat(IncrementOp(name), k))
    ensures Run(m, [InitOp(name)] + Repeat(IncrementOp(name), k))[name] == k
  {
    var ops := [InitOp(name)] + Repeat(IncrementOp(name), k);
    assert ops[0] == InitOp(name) && ops[1..] == Repeat(IncrementOp(name), k);
    IncrementsAccumulate(Init(m, name).counters, name, k);
  }

  /** No sequence of calls makes a stored value negative. */
  lemma {:induction false} RunKeepsNonNegative(m: Counters, ops: seq<Op>)
    requires NonNegative(m)
    ensures NonNegative(Run(m, ops))
    decreases |ops|
  {
    if ops != [] {
      RunKeepsNonNegative(Apply(m, ops[0]).counters, ops[1..]);
    }
  }

  /** A name that was never initialised does not appear in the store. */
  lemma {:induction false} RunOnlyInitCreates(m: Counters, ops: seq<Op>, k: string)
    requires k !in m && InitOp(k) !in ops
    ensures k !in Run(m, ops)
    decreases |ops|
  {
    if ops != [] {
      assert ops[0] != InitOp(k);
      assert InitOp(k) !in ops[1..] by {
        forall i | 0 <= i < |ops| - 1 ensures ops[1..][i] != InitOp(k) {
          assert ops[1..][i] == ops[i + 1];
        }
      }
      RunOnlyInitCreates(Apply(m, ops[0]).counters, ops[1..], k);
    }
  }

  /** In a listing no name appears twice. */
  lemma ListedOnce(entries: seq<(string, int)>, m: Counters, i: int, j: int)
    requires Listed(entries, m)
    requires 0 <= i < |entries| && 0 <= j < |entries| && entries[i].0 == entries[j].0
    ensures i == j
  {
    if i < j {
      LessIrreflexive(entries[i].0);
    } else if j < i {
      LessIrreflexive(entries[j].0);
    }
  }

  /** The first name of a listing precedes every other listed name. */
  lemma HeadIsLeast(entries: seq<(string, int)>, m: Counters, k: string)
    requires Listed(entries, m) && k in m
    ensures |entries| > 0
    ensures k == entries[0].0 || Less(entries[0].0, k)
  {
  }

  /** A listing without its first entry lists the rest of the store. */
  lemma ListedTail(entries: seq<(string, int)>, m: Counters)
    requires Listed(entries, m) && |entries| > 0
    ensures Listed(entries[1..], m - {entries[0].0})
  {
    var first := entries[0].0;
    var tail := entries[1..];
    forall i | 0 <= i < |tail|
      ensures tail[i].0 in m - {first} && tail[i].1 == (m - {first})[tail[i].0]
    {
      assert tail[i] == entries[i + 1];
      LessIrreflexive(first);
    }
    forall k | k in m - {first}
      ensures exists i :: 0 <= i < |tail| && tail[i].0 == k
    {
      var i :| 0 <= i < |entries| && entries[i].0 == k;
      assert i > 0 && tail[i - 1] == entries[i];
    }
  }

  /** Two listings of the same non-empty store start with the same entry. */
  lemma SameFirstEntry(e1: seq<(string, int)>, e2: seq<(string, int)>, m: Counters)
    requires Listed(e1, m) && Listed(e2, m) && |e1| > 0
    ensures |e2| > 0 && e1[0] == e2[0]
  {
    var a := e1[0].0;
    assert a in m;
    HeadIsLeast(e2, m, a);
    var b := e2[0].0;
    assert b in m;
    HeadIsLeast(e1, m, b);
    if a != b {
      LessAsymmetric(a, b);
    }
    assert e1[0].1 == m[a] && e2[0].1 == m[b];
  }

  /** A listing is empty exactly when the store is. */
  lemma ListedEmpty(entries: seq<(string, int)>, m: Counters)
    requires Listed(entries, m)
    ensures |entries| == 0 <==> m.Keys == {}
  {
    if |entries| > 0 {
      assert entries[0].0 in m.Keys;
    }
    if m.Keys != {} {
      var k :| k in m.Keys;
      assert k in m;
    }
  }

  /** Sequences with equal first elements and equal tails are equal. */
  lemma SameHeadAndTail<T>(s: seq<T>, t: seq<T>)
    requires |s| > 0 && |t| > 0 && s[0] == t[0] && s[1..] == t[1..]
    ensures s == t
  {
    assert s == [s[0]] + s[1..];
    assert t == [t[0]] + t[1..];
  }

  /** The listing of a store is unique: `list` is determined by the map. */
  lemma {:induction false} ListedUnique(e1: seq<(string, int)>, e2: seq<(string, int)>, m: Counters)
    requires Listed(e1, m) && Listed(e2, m)
    ensures e1 == e2
    decreases |e1|
  {
    if |e1| > 0 {
      SameFirstEntry(e1, e2, m);
      ListedTail(e1, m);
      ListedTail(e2, m);
      ListedUnique(e1[1..], e2[1..], m - {e1[0].0});
      SameHeadAndTail(e1, e2);
    } else {
      ListedEmpty(e1, m);
      ListedEmpty(e2, m);
    }
  }

  /** init, read, increment, conditional delete at the value just read, read. */
  lemma ScenarioInitIncrementDelete()
    ensures var s1 := Init(map[], "a");
            var s2 := Read(s1.counters, "a");
            var s3 := Increment(s2.counters, "a");
            var s4 := DeleteCas(s3.counters, "a", 1);
            var s5 := Read(s4.counters, "a");
            && s1.outcome == Created && s2.outcome == Ok(0) && s3.outcome == Ok(1)
            && s4.outcome == Ok(1) && s5.outcome == NotFound && s5.counters == map[]
  {
  }

  /** A conditional call with a negative condition is refused even when the
      counter is absent; a mismatch is reported without the current value. */
  lemma ScenarioRefusals(m: Counters)
    requires "a" !in m
    ensures DeleteCas(m, "a", -1) == Step(InvalidArgument, m)
    ensures IncrementCas(m["a" := 5], "a", 0) == Step(PreconditionFailed, m["a" := 5])
    ensures Increment(m, "a") == Step(NotFound, m)
  {
  }

  /** Every operation answers only with statuses its API annotation lists,
      except `init`, which answers 201 where the annotation lists 200. */
  lemma StatusesAsAnnotated(m: Counters, name: string, condition: int)
    ensures Status(Read(m, name).outcome) in {200, 404}
    ensures Status(Delete(m, name).outcome) in {200, 404}
    ensures Status(DeleteCas(m, name, condition).outcome) in {200, 400, 417, 404}
    ensures Status(Increment(m, name).outcome) in {200, 404}
    ensures Status(IncrementCas(m, name, condition).outcome) in {200, 400, 417, 404}
    ensures Status(Init(m, name).outcome) in {201, 409}
    ensures name !in m ==> Status(Init(m, name).outcome) !in {200, 409}
  {
  }
}
