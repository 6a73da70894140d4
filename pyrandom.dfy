/**
 * The two calls into Python's `random` module. The random outcome is an argument
 * (an index, or a sequence of indices) constrained only by what the call promises,
 * so every property below holds for every random outcome.
 */
module PyRandom {
  import opened Outcomes

  /** The `ValueError` that `random.sample` raises: "Sample larger than population or is negative". */
  datatype SampleError = SampleLargerThanPopulationOrNegative

  /** `random.choice(population)` when the random source picked position `pick`. */
  function Choice<T>(population: seq<T>, pick: nat): (r: T)
    requires pick < |population|
    ensures r in population
  {
    population[pick]
  }

  /** `draw` is a possible outcome of drawing `k` of `n` positions without replacement. */
  predicate IsDraw(draw: seq<nat>, k: nat, n: nat) {
    && |draw| == k
    && (forall i :: 0 <= i < k ==> draw[i] < n)
    && (forall i, j :: 0 <= i < j < k ==> draw[i] != draw[j])
  }

  /** The elements of `population` at the positions `draw`, in drawing order. */
  function PickAt<T>(population: seq<T>, draw: seq<nat>): seq<T>
    requires forall i :: 0 <= i < |draw| ==> draw[i] < |population|
  {
    seq(|draw|, i requires 0 <= i < |draw| => population[draw[i]])
  }

  /**
   * `random.sample(population, k)` when the random source drew the positions `draw`:
   * a negative `k` or one above the population size raises, otherwise `k` elements
   * are returned from distinct positions.
   */
  function Sample<T>(population: seq<T>, k: int, draw: seq<nat>): (r: Result<seq<T>, SampleError>)
    requires 0 <= k <= |population| ==> IsDraw(draw, k, |population|)
    ensures r.Err? <==> k < 0 || |population| < k
    ensures r.Ok? ==> |r.value| == k && forall i :: 0 <= i < k ==> r.value[i] == population[draw[i]]
  {
    if k < 0 || |population| < k then Err(SampleLargerThanPopulationOrNegative)
    else Ok(PickAt(population, draw))
  }

  /**
   * Elements taken from distinct positions are a sub-multiset of the population:
   * no element is drawn more often than it occurs.
   */
  lemma {:induction false} DistinctPicksAreSubMultiset<T>(population: seq<T>, draw: seq<nat>)
    requires forall i :: 0 <= i < |draw| ==> draw[i] < |population|
    requires forall i, j :: 0 <= i < j < |draw| ==> draw[i] != draw[j]
    ensures multiset(PickAt(population, draw)) <= multiset(population)
    decreases |draw|
  {
    if |draw| > 0 {
      var n := |draw| - 1;
      var j := draw[n];
      var front := draw[..n];
      // The population without position j, and the earlier picks renumbered into it.
      var rest := population[..j] + population[j + 1..];
      var renumbered := seq(n, i requires 0 <= i < n => if front[i] < j then front[i] else front[i] - 1);
      assert forall i :: 0 <= i < n ==> front[i] != j by {
        forall i | 0 <= i < n ensures front[i] != j {
          assert draw[i] != draw[n];
        }
      }
      forall i | 0 <= i < n ensures renumbered[i] < |rest| && rest[renumbered[i]] == population[front[i]] {
        if front[i] < j {
          assert rest[front[i]] == population[front[i]];
        } else {
          assert rest[front[i] - 1] == population[front[i]];
        }
      }
      forall i, i' | 0 <= i < i' < n ensures renumbered[i] != renumbered[i'] {
        assert draw[i] != draw[i'];
      }
      DistinctPicksAreSubMultiset(rest, renumbered);
      assert PickAt(rest, renumbered) == PickAt(population, front);
      assert PickAt(population, draw) == PickAt(population, front) + [population[j]];
      assert population == population[..j] + [population[j]] + population[j + 1..];
      assert multiset(population) == multiset(rest) + multiset{population[j]};
    }
  }

  /** `random.sample` draws without replacement. */
  lemma SampleDrawsWithoutReplacement<T>(population: seq<T>, k: int, draw: seq<nat>)
    requires 0 <= k <= |population| ==> IsDraw(draw, k, |population|)
    ensures Sample(population, k, draw).Ok? ==> multiset(Sample(population, k, draw).value) <= multiset(population)
  {
    if 0 <= k <= |population| {
      DistinctPicksAreSubMultiset(population, draw);
    }
  }
}
