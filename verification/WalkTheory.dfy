/** A deterministic walk over keys that either halts at a key or goes on to the next one, and
    the bounded walk that remembers the keys it passed. The engine's walk is one instance. */
module WalkTheory {
  import opened Collections

  datatype Move = Halt | Go(next: string)

  /** The key after n steps of the unbounded walk; a halted walk stays where it is. */
  function At(move: string -> Move, start: string, n: nat): string {
    if n == 0 then start
    else
      var key := At(move, start, n - 1);
      if move(key).Halt? then key else move(key).next
  }

  predicate HaltsAt(move: string -> Move, start: string, n: nat) {
    move(At(move, start, n)).Halt?
  }

  ghost predicate NeverHalts(move: string -> Move, start: string) {
    forall n: nat :: !HaltsAt(move, start, n)
  }

  ghost predicate HaltsFirstAt(move: string -> Move, start: string, n: nat) {
    HaltsAt(move, start, n) && forall i :: 0 <= i < n ==> !HaltsAt(move, start, i)
  }

  lemma {:induction false} AtShift(move: string -> Move, key: string, n: nat)
    requires move(key).Go?
    ensures At(move, move(key).next, n) == At(move, key, n + 1)
  {
    if n > 0 {
      AtShift(move, key, n - 1);
    } else {
      assert At(move, key, 0) == key;
    }
  }

  lemma {:induction false} Periodic(move: string -> Move, start: string, i: nat, j: nat, n: nat)
    requires i < j <= n && At(move, start, i) == At(move, start, j)
    ensures At(move, start, n) == At(move, start, n - (j - i))
  {
    if n > j {
      Periodic(move, start, i, j, n - 1);
    }
  }

  /** A walk that comes back to a key before halting never halts. */
  lemma {:induction false} RevisitNeverHalts(move: string -> Move, start: string, i: nat, j: nat, n: nat)
    requires i < j && At(move, start, i) == At(move, start, j)
    requires forall k :: 0 <= k < j ==> !HaltsAt(move, start, k)
    ensures !HaltsAt(move, start, n)
  {
    if n >= j {
      Periodic(move, start, i, j, n);
      RevisitNeverHalts(move, start, i, j, n - (j - i));
    }
  }

  // ----- the bounded walk

  datatype Chased = Looped(key: string) | Halted(key: string, passed: seq<string>)

  ghost predicate Within(move: string -> Move, keys: set<string>) {
    forall k {:trigger move(k)} :: move(k).Go? ==> k in keys
  }

  /** Stops at the first key that halts or that was visited before. */
  ghost function Chase(move: string -> Move, keys: set<string>, key: string, visited: set<string>): Chased
    requires Within(move, keys)
    decreases keys - visited
  {
    if move(key).Halt? then Halted(key, [])
    else if key in visited then Looped(key)
    else
      match Chase(move, keys, move(key).next, visited + {key})
      case Looped(k) => Looped(k)
      case Halted(k, passed) => Halted(k, [key] + passed)
  }

  lemma DistinctCons(key: string, rest: seq<string>, free: set<string>)
    requires Distinct(rest) && Elems(rest) <= free - {key} && key in free
    ensures Distinct([key] + rest) && Elems([key] + rest) <= free
  {
    var passed := [key] + rest;
    assert forall x :: x in passed ==> x == key || x in Elems(rest);
    assert forall i :: 0 < i < |passed| ==> passed[i] == rest[i - 1] && passed[i] in Elems(rest);
  }

  /** A walk that goes on halts one step after the walk from its next key does. */
  lemma HaltsLater(move: string -> Move, key: string, n: nat)
    requires move(key).Go? && HaltsFirstAt(move, move(key).next, n)
    ensures HaltsFirstAt(move, key, n + 1)
  {
    AtShift(move, key, n);
    forall i | 0 <= i < n + 1
      ensures !HaltsAt(move, key, i)
    {
      if i > 0 {
        AtShift(move, key, i - 1);
        assert !HaltsAt(move, move(key).next, i - 1);
      } else {
        assert At(move, key, 0) == key;
      }
    }
  }

  lemma {:induction false} HaltedMeans(move: string -> Move, keys: set<string>, key: string, visited: set<string>)
    requires Within(move, keys) && Chase(move, keys, key, visited).Halted?
    ensures var c := Chase(move, keys, key, visited);
            && HaltsFirstAt(move, key, |c.passed|) && c.key == At(move, key, |c.passed|)
            && (forall i :: 0 <= i < |c.passed| ==> c.passed[i] == At(move, key, i))
            && Distinct(c.passed) && Elems(c.passed) <= keys - visited
    decreases keys - visited
  {
    assert At(move, key, 0) == key;
    if move(key).Go? {
      hide Distinct, HaltsFirstAt, Elems;
      var next := move(key).next;
      HaltedMeans(move, keys, next, visited + {key});
      var rest := Chase(move, keys, next, visited + {key}).passed;
      var passed := [key] + rest;
      assert Chase(move, keys, key, visited).passed == passed;
      HaltsLater(move, key, |rest|);
      assert keys - (visited + {key}) == keys - visited - {key};
      DistinctCons(key, rest, keys - visited);
      AtShift(move, key, |rest|);
      forall i | 0 <= i < |passed|
        ensures passed[i] == At(move, key, i)
      {
        if i > 0 {
          AtShift(move, key, i - 1);
        }
      }
    }
  }

  /** A loop is witnessed by two visits to one key, or by a visit to a key passed earlier. */
  lemma {:induction false} LoopedMeans(move: string -> Move, keys: set<string>, key: string, visited: set<string>)
      returns (i: nat, n: nat)
    requires Within(move, keys) && Chase(move, keys, key, visited).Looped?
    ensures var k := Chase(move, keys, key, visited).key;
            && At(move, key, n) == k && (forall m :: 0 <= m <= n ==> !HaltsAt(move, key, m))
            && (k in visited || (i < n && At(move, key, i) == k))
    decreases keys - visited
  {
    i := 0;
    assert At(move, key, 0) == key;
    if key in visited {
      n := 0;
    } else {
      var i', n' := LoopedMeans(move, keys, move(key).next, visited + {key});
      n := n' + 1;
      if Chase(move, keys, key, visited).key != key {
        i := i' + 1;
      }
      AtShift(move, key, n');
      AtShift(move, key, i');
      forall m | 0 <= m <= n
        ensures !HaltsAt(move, key, m)
      {
        if m > 0 {
          AtShift(move, key, m - 1);
          assert !HaltsAt(move, move(key).next, m - 1);
        }
      }
    }
  }

  /** The bounded walk loops if and only if the unbounded one never halts; otherwise it ends at
      the first halt, having passed each key before it once. */
  lemma ChaseIsWalk(move: string -> Move, keys: set<string>, start: string)
    requires Within(move, keys)
    ensures Chase(move, keys, start, {}).Looped? <==> NeverHalts(move, start)
    ensures forall n: nat :: HaltsFirstAt(move, start, n) ==>
      var c := Chase(move, keys, start, {});
      && c.Halted? && |c.passed| == n && c.key == At(move, start, n)
      && (forall i :: 0 <= i < n ==> c.passed[i] == At(move, start, i))
      && n <= |keys|
  {
    var c := Chase(move, keys, start, {});
    if c.Looped? {
      var i, n := LoopedMeans(move, keys, start, {});
      forall m: nat
        ensures !HaltsAt(move, start, m)
      {
        RevisitNeverHalts(move, start, i, n, m);
      }
    } else {
      HaltedMeans(move, keys, start, {});
      DistinctCardinality(c.passed);
      SubsetCardinality(Elems(c.passed), keys);
      forall n: nat | HaltsFirstAt(move, start, n)
        ensures n == |c.passed|
      {
        assert !(n < |c.passed|) && !(|c.passed| < n);
      }
    }
  }
}
