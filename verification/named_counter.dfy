/** The REST resource itself: one object owning the mutable `counters` map,
    whose operations change it in place through the atomic primitives of a
    concurrent navigable map. Each operation is one atomic step; the methods
    are proved to answer and leave exactly what `Store` prescribes. */
module NamedCounters {
  import opened Outcomes
  import opened KeyOrder
  import Store

  datatype Option<T> = None | Some(value: T)

  /** Picks the least name of a non-empty set of names, in the order the
      counter map iterates its keys. */
  method LeastKey(keys: set<string>) returns (least: string)
    requires keys != {}
    ensures least in keys
    ensures forall k :: k in keys && k != least ==> Less(least, k)
  {
    least :| least in keys;
    var rest := keys - {least};
    while rest != {}
      invariant rest <= keys && least in keys && least !in rest
      invariant forall k :: k in keys && k !in rest && k != least ==> Less(least, k)
      decreases rest
    {
      var k :| k in rest;
      if Less(k, least) {
        forall j | j in keys && j !in rest && j != least
          ensures Less(k, j)
        {
          LessTransitive(k, least, j);
        }
        least := k;
      } else {
        LessTotal(k, least);
      }
      rest := rest - {k};
    }
  }

  /** Listing the entry of `next.0` after `listed` covers `next.0` as well as
      every name `listed` already covered. */
  lemma CoverageGrows(listed: seq<(string, int)>, next: (string, int), m: map<string, int>,
                      remaining: set<string>)
    requires forall k :: k in m && k !in remaining ==>
               exists i :: 0 <= i < |listed| && listed[i].0 == k
    ensures forall k :: k in m && k !in remaining - {next.0} ==>
              exists i :: 0 <= i < |listed + [next]| && (listed + [next])[i].0 == k
  {
    var entries := listed + [next];
    forall k | k in m && k !in remaining - {next.0}
      ensures exists i :: 0 <= i < |entries| && entries[i].0 == k
    {
      if k == next.0 {
        assert entries[|listed|].0 == k;
      } else {
        var i :| 0 <= i < |listed| && listed[i].0 == k;
        assert entries[i].0 == k;
      }
    }
  }

  class NamedCounter {
    var counters: map<string, int>

    /** Every stored value is non-negative. */
    ghost predicate Valid()
      reads this
    {
      Store.NonNegative(counters)
    }

    constructor ()
      ensures Valid() && counters == map[]
    {
      counters := map[];
    }

    // The primitives of the concurrent map that the operations use, each one
    // atomic.

    /** `counters.get(name)`: the value, or `None` when absent. */
    method Get(name: string) returns (value: Option<int>)
      ensures value.Some? <==> name in counters
      ensures value.Some? ==> value.value == counters[name]
    {
      value := if name in counters then Some(counters[name]) else None;
    }

    /** `counters.putIfAbsent(name, initial)`: installs `initial` unless the
        name is present; returns the previous value. */
    method PutIfAbsent(name: string, initial: int) returns (previous: Option<int>)
      modifies this
      ensures previous.Some? <==> name in old(counters)
      ensures previous.Some? ==> previous.value == old(counters)[name] && counters == old(counters)
      ensures previous.None? ==> counters == old(counters)[name := initial]
    {
      if name in counters {
        previous := Some(counters[name]);
      } else {
        previous := None;
        counters := counters[name := initial];
      }
    }

    /** `counters.remove(name)`: removes the entry; returns the removed value. */
    method Remove(name: string) returns (previous: Option<int>)
      modifies this
      ensures previous.Some? <==> name in old(counters)
      ensures previous.Some? ==> previous.value == old(counters)[name]
      ensures counters == old(counters) - {name}
    {
      previous := if name in counters then Some(counters[name]) else None;
      counters := counters - {name};
    }

    /** `counters.remove(name, expected)`: removes the entry only while it
        holds `expected`. */
    method RemoveIfEquals(name: string, expected: int) returns (removed: bool)
      modifies this
      ensures removed <==> name in old(counters) && old(counters)[name] == expected
      ensures removed ==> counters == old(counters) - {name}
      ensures !removed ==> counters == old(counters)
    {
      removed := name in counters && counters[name] == expected;
      if removed {
        counters := counters - {name};
      }
    }

    /** `counters.computeIfPresent(name, (key, v) -> remap(v))`: replaces a
        present value by `remap` of it; returns the new value. */
    method ComputeIfPresent(name: string, remap: int -> int) returns (current: Option<int>)
      modifies this
      ensures current.Some? <==> name in old(counters)
      ensures current.Some? ==> current.value == remap(old(counters)[name])
                                && counters == old(counters)[name := current.value]
      ensures current.None? ==> counters == old(counters)
    {
      if name in counters {
        current := Some(remap(counters[name]));
        counters := counters[name := current.value];
      } else {
        current := None;
      }
    }

    /** `counters.replace(name, expected, replacement)`: swaps the value only
        while it holds `expected`. */
    method Replace(name: string, expected: int, replacement: int) returns (replaced: bool)
      modifies this
      ensures replaced <==> name in old(counters) && old(counters)[name] == expected
      ensures replaced ==> counters == old(counters)[name := replacement]
      ensures !replaced ==> counters == old(counters)
    {
      replaced := name in counters && counters[name] == expected;
      if replaced {
        counters := counters[name := replacement];
      }
    }

    // The resource operations.

    /** GET counters/: every counter with its value, in ascending name order.
        The key set is walked in order and each value read afresh. */
    method List() returns (entries: seq<(string, int)>)
      ensures Store.Listed(entries, counters)
    {
      entries := [];
      var remaining := counters.Keys;
      while remaining != {}
        invariant remaining <= counters.Keys
        invariant forall i :: 0 <= i < |entries| ==>
                    entries[i].0 in counters && entries[i].1 == counters[entries[i].0]
        invariant forall i, j :: 0 <= i < j < |entries| ==> Less(entries[i].0, entries[j].0)
        invariant forall i, k :: 0 <= i < |entries| && k in remaining ==> Less(entries[i].0, k)
        invariant forall k :: k in counters && k !in remaining ==>
                    exists i :: 0 <= i < |entries| && entries[i].0 == k
        decreases remaining
      {
        var key := LeastKey(remaining);
        var value := counters[key];
        CoverageGrows(entries, (key, value), counters, remaining);
        entries := entries + [(key, value)];
        remaining := remaining - {key};
      }
    }

    /** GET counters/{name}. */
    method Read(name: string) returns (o: Outcome)
      ensures Store.Read(counters, name) == Store.Step(o, counters)
    {
      var value := Get(name);
      if value.None? {
        return NotFound;
      }
      o := Ok(value.value);
    }

    /** PUT counters/{name}. */
    method Init(name: string) returns (o: Outcome)
      requires Valid()
      modifies this
      ensures Valid()
      ensures Store.Init(old(counters), name) == Store.Step(o, counters)
    {
      var previous := PutIfAbsent(name, 0);
      if previous.None? || previous.value == 0 {
        o := Created;
      } else {
        o := Conflict;
      }
    }

    /** DELETE counters/{name}. */
    method Delete(name: string) returns (o: Outcome)
      requires Valid()
      modifies this
      ensures Valid()
      ensures Store.Delete(old(counters), name) == Store.Step(o, counters)
    {
      var previous := Remove(name);
      if previous.None? {
        return NotFound;
      }
      o := Ok(previous.value);
    }

    /** DELETE counters/{name}/{condition}. */
    method DeleteCas(name: string, condition: int) returns (o: Outcome)
      requires Valid()
      modifies this
      ensures Valid()
      ensures Store.DeleteCas(old(counters), name, condition) == Store.Step(o, counters)
    {
      if condition < 0 {
        return InvalidArgument;
      }
      var value := Get(name);
      if value.None? {
        return NotFound;
      }
      if value.value != condition {
        return PreconditionFailed;
      }
      var removed := RemoveIfEquals(name, condition);
      // With one caller at a time the entry cannot change between the read
      // and the conditional removal, so the retry is never needed.
      assert removed;
      o := Ok(value.value);
    }

    /** POST counters/{name}. */
    method Increment(name: string) returns (o: Outcome)
      requires Valid()
      modifies this
      ensures Valid()
      ensures Store.Increment(old(counters), name) == Store.Step(o, counters)
    {
      var current := ComputeIfPresent(name, v => v + 1);
      if current.None? {
        return NotFound;
      }
      o := Ok(current.value);
    }

    /** POST counters/{name}/{condition}. */
    method IncrementCas(name: string, condition: int) returns (o: Outcome)
      requires Valid()
      modifies this
      ensures Valid()
      ensures Store.IncrementCas(old(counters), name, condition) == Store.Step(o, counters)
    {
      if condition < 0 {
        return InvalidArgument;
      }
      var value := Get(name);
      if value.None? {
        return NotFound;
      }
      if value.value != condition {
        return PreconditionFailed;
      }
      var replaced := Replace(name, condition, condition + 1);
      // As in DeleteCas, the swap succeeds on its first attempt.
      assert replaced;
      o := Ok(condition + 1);
    }
  }
}
