/**
 * Two-sum by a single pass over the values with a map from complements
 * to indices (problems/1_twosum.ts).
 */
module TwoSumProblem {
  import opened TypeLevel
  import Numbers

  /**
   * What `H[Next]` gives: the index stored under the key, or `never`, read
   * off a map that has itself become `never` (see `Insert`).
   */
  datatype Slot = At(index: int) | Collapsed

  /** The answers: an index pair, or one of the two messages. */
  datatype Answer = Pair(first: Slot, second: int) | TooFew | Exhausted

  /**
   * `H & { [key in K]: Idx }`.  A new key extends the map.  A key already
   * present would have to hold two different index literals at once, and
   * the intersection of the two object types is `never`.
   */
  function Insert(h: map<int, int>, k: int, idx: int): Ty<map<int, int>>
  {
    if k in h then Never else Val(h[k := idx])
  }

  /** `Subtract<Target, Next>`, the key a value leaves behind. */
  function Complement(target: int, v: int): (k: int)
    ensures k == target - v
  {
    Numbers.Subtract(target, v).value
  }

  /**
   * `SinglePassHashMap<Values, Target, Idx, H>`: the first value found
   * among the keys answers with the stored index and its own.  On a map
   * that is `never`, `keyof H` is every key, so the next value answers
   * with `never` in place of the stored index.
   */
  function SinglePass(values: seq<int>, target: int, idx: int, h: Ty<map<int, int>>): Ty<Answer>
    decreases |values|
  {
    if values == [] then Never
    else
      match h
      case Never => Val(Pair(Collapsed, idx))
      case Val(m) =>
        if values[0] in m then Val(Pair(At(m[values[0]]), idx))
        else if |values| == 1 then Val(Exhausted)
        else SinglePass(values[1..], target, idx + 1, Insert(m, Complement(target, values[0]), idx))
  }

  /** `TwoSum<Values, Target>`. */
  function TwoSum(values: seq<int>, target: int): Ty<Answer>
  {
    if values == [] then Never
    else if |values| == 1 then Val(TooFew)
    else SinglePass(values[1..], target, 1, Val(map[Complement(target, values[0]) := 0]))
  }

  // ---------------------------------------------------------------------
  // What the pass computes
  // ---------------------------------------------------------------------

  /** Some earlier value adds up with the value at j to the target. */
  ghost predicate HasPairAt(values: seq<int>, target: int, j: int)
    requires 0 <= j < |values|
  {
    exists i :: 0 <= i < j && values[i] + values[j] == target
  }

  /** No value occurs twice among the first n. */
  ghost predicate Distinct(values: seq<int>, n: int)
    requires 0 <= n <= |values|
  {
    forall i, i' :: 0 <= i < i' < n ==> values[i] != values[i']
  }

  /** The map holds the complement of each of the first n values, under an index that gave it. */
  ghost predicate Exact(m: map<int, int>, values: seq<int>, target: int, n: int)
    requires 0 <= n <= |values|
  {
    && (forall i :: 0 <= i < n ==> target - values[i] in m)
    && forall k :: k in m ==> 0 <= m[k] < n && target - values[m[k]] == k
  }

  /** The map after the first n values: `never` exactly when a value repeated, exact otherwise. */
  ghost predicate MapAfter(h: Ty<map<int, int>>, values: seq<int>, target: int, n: int)
    requires 0 <= n <= |values|
  {
    match h
    case Never => !Distinct(values, n)
    case Val(m) => Distinct(values, n) && Exact(m, values, target, n)
  }

  /** The pass answers at j: a value before j repeated, or an earlier value completes the one at j. */
  ghost predicate Stops(values: seq<int>, target: int, j: int)
    requires 0 <= j < |values|
  {
    !Distinct(values, j) || HasPairAt(values, target, j)
  }

  /** Adding the complement of the value at n keeps the map exact, or collapses it on a repeated value. */
  lemma InsertKeepsMap(m: map<int, int>, values: seq<int>, target: int, n: int)
    requires 0 <= n < |values| && Distinct(values, n) && Exact(m, values, target, n)
    ensures MapAfter(Insert(m, target - values[n], n), values, target, n + 1)
  {
    var k := target - values[n];
    if k in m {
      assert values[m[k]] == values[n];
    } else {
      forall i | 0 <= i < n ensures values[i] != values[n] {
        assert target - values[i] in m;
      }
    }
  }

  /** On an exact map, a value is a key exactly when an earlier value completes it. */
  lemma KeyMeansPair(m: map<int, int>, values: seq<int>, target: int, j: int)
    requires 0 <= j < |values| && Exact(m, values, target, j)
    ensures values[j] in m <==> HasPairAt(values, target, j)
  {
    if values[j] in m {
      var i := m[values[j]];
      assert 0 <= i < j && target - values[i] == values[j];
    }
    if HasPairAt(values, target, j) {
      var i :| 0 <= i < j && values[i] + values[j] == target;
      assert target - values[i] in m;
    }
  }

  /**
   * What the pass may return from position n on: the first j at or after n
   * where it stops, with `never` for the stored index exactly when a value
   * repeated before j, and an earlier index completing the value at j
   * otherwise; or the exhausted answer when it never stops.
   */
  ghost predicate PassOutcome(values: seq<int>, target: int, n: int, res: Ty<Answer>)
    requires 0 <= n <= |values|
  {
    match res
    case Val(Pair(s, j)) =>
      && n <= j < |values| && Stops(values, target, j)
      && (forall j' :: n <= j' < j ==> !Stops(values, target, j'))
      && (s == Collapsed <==> !Distinct(values, j))
      && (s.At? ==> 0 <= s.index < j && values[s.index] + values[j] == target)
    case Val(Exhausted) => forall j :: n <= j < |values| ==> !Stops(values, target, j)
    case _ => false
  }

  /**
   * The answer from position n on, read off the values alone: `never` for
   * the index once a value has repeated, otherwise an earlier index that
   * completes the value at n, otherwise the answer from n + 1 on.
   */
  ghost function Expected(values: seq<int>, target: int, n: int): Ty<Answer>
    requires 0 <= n < |values|
    decreases |values| - n
  {
    if !Distinct(values, n) then Val(Pair(Collapsed, n))
    else if HasPairAt(values, target, n) then
      var i :| 0 <= i < n && values[i] + values[n] == target;
      Val(Pair(At(i), n))
    else if n == |values| - 1 then Val(Exhausted)
    else Expected(values, target, n + 1)
  }

  /** The reference answer is the first stop, as `PassOutcome` describes it. */
  lemma {:induction false} ExpectedOutcome(values: seq<int>, target: int, n: int)
    requires 0 <= n < |values|
    ensures PassOutcome(values, target, n, Expected(values, target, n))
    decreases |values| - n
  {
    if Distinct(values, n) && !HasPairAt(values, target, n) && n < |values| - 1 {
      ExpectedOutcome(values, target, n + 1);
      NextOutcome(values, target, n, Expected(values, target, n + 1));
    }
  }

  /** One step of the pass at position n. */
  lemma SinglePassStep(values: seq<int>, target: int, n: int, h: Ty<map<int, int>>)
    requires 0 <= n < |values|
    ensures SinglePass(values[n..], target, n, h) ==
      match h
      case Never => Val(Pair(Collapsed, n))
      case Val(m) =>
        if values[n] in m then Val(Pair(At(m[values[n]]), n))
        else if n == |values| - 1 then Val(Exhausted)
        else SinglePass(values[n + 1..], target, n + 1, Insert(m, target - values[n], n))
  {
    var rest := values[n..];
    assert rest[0] == values[n];
    if |rest| > 1 {
      assert rest[1..] == values[n + 1..];
    }
  }

  /** From position n on, with the map of the first n values, the pass gives the reference answer. */
  lemma SinglePassResult(values: seq<int>, target: int, n: int, h: Ty<map<int, int>>)
    requires 1 <= n < |values| && MapAfter(h, values, target, n)
    ensures SinglePass(values[n..], target, n, h) == Expected(values, target, n)
  {
    match h
    case Never => CollapsedResult(values, target, n);
    case Val(m) => ExactPassResult(m, values, target, n);
  }

  /** The induction behind `SinglePassResult`, from an exact map. */
  lemma {:induction false} ExactPassResult(m: map<int, int>, values: seq<int>, target: int, n: int)
    requires 0 <= n < |values| && Distinct(values, n) && Exact(m, values, target, n)
    ensures SinglePass(values[n..], target, n, Val(m)) == Expected(values, target, n)
    decreases |values| - n
  {
    if values[n] !in m && n < |values| - 1 {
      InsertKeepsMap(m, values, target, n);
      match Insert(m, target - values[n], n)
      case Never => CollapsedResult(values, target, n + 1);
      case Val(m') => ExactPassResult(m', values, target, n + 1);
    }
    MapResult(m, values, target, n);
  }

  /** On an exact map, the pass gives the reference answer, given that it does so from the next position on. */
  lemma MapResult(m: map<int, int>, values: seq<int>, target: int, n: int)
    requires 0 <= n < |values| && Distinct(values, n) && Exact(m, values, target, n)
    requires values[n] !in m && n < |values| - 1 ==>
      SinglePass(values[n + 1..], target, n + 1, Insert(m, target - values[n], n)) == Expected(values, target, n + 1)
    ensures SinglePass(values[n..], target, n, Val(m)) == Expected(values, target, n)
  {
    if values[n] in m {
      HitResult(m, values, target, n);
    } else if n == |values| - 1 {
      LastResult(m, values, target, n);
    } else {
      KeyMeansPair(m, values, target, n);
      MissResult(m, values, target, n);
    }
  }

  /** A collapsed map answers at once with `never` for the index, as the reference does. */
  lemma CollapsedResult(values: seq<int>, target: int, n: int)
    requires 0 <= n < |values| && !Distinct(values, n)
    ensures SinglePass(values[n..], target, n, Never) == Expected(values, target, n)
  {
    SinglePassStep(values, target, n, Never);
  }

  /** A value found among the keys answers with the one index that completes it. */
  lemma HitResult(m: map<int, int>, values: seq<int>, target: int, n: int)
    requires 0 <= n < |values| && Distinct(values, n) && Exact(m, values, target, n) && values[n] in m
    ensures SinglePass(values[n..], target, n, Val(m)) == Expected(values, target, n)
  {
    SinglePassStep(values, target, n, Val(m));
    KeyMeansPair(m, values, target, n);
    HitIndex(m, values, target, n);
  }

  /** The last value, not found among the keys, exhausts the pass. */
  lemma LastResult(m: map<int, int>, values: seq<int>, target: int, n: int)
    requires 0 <= n == |values| - 1 && Distinct(values, n) && Exact(m, values, target, n) && values[n] !in m
    ensures SinglePass(values[n..], target, n, Val(m)) == Val(Exhausted) == Expected(values, target, n)
  {
    SinglePassStep(values, target, n, Val(m));
    KeyMeansPair(m, values, target, n);
  }

  /** A value not found among the keys, before the last, passes the answer of the rest on. */
  lemma MissResult(m: map<int, int>, values: seq<int>, target: int, n: int)
    requires 0 <= n < |values| - 1 && Distinct(values, n) && !HasPairAt(values, target, n) && values[n] !in m
    requires SinglePass(values[n + 1..], target, n + 1, Insert(m, target - values[n], n)) == Expected(values, target, n + 1)
    ensures SinglePass(values[n..], target, n, Val(m)) == Expected(values, target, n)
  {
    MissStep(m, values, target, n);
    ExpectedSkips(values, target, n);
  }

  /** A value not found among the keys, before the last, hands on to the rest of the pass. */
  lemma MissStep(m: map<int, int>, values: seq<int>, target: int, n: int)
    requires 0 <= n < |values| - 1 && values[n] !in m
    ensures SinglePass(values[n..], target, n, Val(m)) ==
      SinglePass(values[n + 1..], target, n + 1, Insert(m, target - values[n], n))
  {
    SinglePassStep(values, target, n, Val(m));
  }

  /** Where the pass does not stop, the reference answer is the one from the next position. */
  lemma ExpectedSkips(values: seq<int>, target: int, n: int)
    requires 0 <= n < |values| - 1 && Distinct(values, n) && !HasPairAt(values, target, n)
    ensures Expected(values, target, n) == Expected(values, target, n + 1)
  {
  }

  /** On values without repeats, the index a key holds is the one index that completes the value. */
  lemma HitIndex(m: map<int, int>, values: seq<int>, target: int, n: int)
    requires 0 <= n < |values| && Distinct(values, n) && Exact(m, values, target, n) && values[n] in m
    ensures forall i :: 0 <= i < n && values[i] + values[n] == target ==> i == m[values[n]]
  {
    var k := m[values[n]];
    forall i | 0 <= i < n && values[i] + values[n] == target ensures i == k {
      assert values[i] == values[k];
    }
  }

  /** A position where the pass does not stop does not change what the rest may return. */
  lemma NextOutcome(values: seq<int>, target: int, n: int, res: Ty<Answer>)
    requires 0 <= n < |values| - 1 && !Stops(values, target, n)
    requires PassOutcome(values, target, n + 1, res)
    ensures PassOutcome(values, target, n, res)
  {
  }

  /** The map after the first value holds its complement alone. */
  lemma FirstMap(values: seq<int>, target: int, key: int)
    requires |values| >= 2 && key == target - values[0]
    ensures MapAfter(Val(map[key := 0]), values, target, 1)
  {
  }

  /** For two or more values, what `TwoSum` returns. */
  lemma TwoSumOutcome(values: seq<int>, target: int)
    requires |values| >= 2
    ensures PassOutcome(values, target, 0, TwoSum(values, target))
  {
    var h := Val(map[Complement(target, values[0]) := 0]);
    FirstMap(values, target, Complement(target, values[0]));
    SinglePassResult(values, target, 1, h);
    ExpectedOutcome(values, target, 1);
    assert !Stops(values, target, 0);
    NextOutcome(values, target, 0, TwoSum(values, target));
  }

  /**
   * A pair [i, j] comes from the first j that some earlier value completes,
   * as long as no value repeats before j: then i is the one index below j
   * with values[i] + values[j] == target.  When a value repeats first, at
   * j - 1, the map has become `never` and the first slot is `never`.
   */
  lemma FoundPair(values: seq<int>, target: int, s: Slot, j: int)
    requires TwoSum(values, target) == Val(Pair(s, j))
    ensures 1 <= j < |values|
    ensures forall j' :: 0 <= j' < j ==> !HasPairAt(values, target, j')
    ensures s.At? <==> Distinct(values, j)
    ensures s.At? ==> HasPairAt(values, target, j) && 0 <= s.index < j && values[s.index] + values[j] == target
    ensures s.At? ==> forall i :: 0 <= i < j && values[i] + values[j] == target ==> i == s.index
    ensures s == Collapsed ==> 2 <= j && Distinct(values, j - 1) && exists i :: 0 <= i < j - 1 && values[i] == values[j - 1]
  {
    TwoSumOutcome(values, target);
    assert !Stops(values, target, 0);
    forall j' | 0 <= j' < j ensures !HasPairAt(values, target, j') {
      assert !Stops(values, target, j');
    }
    if s == Collapsed {
      assert Distinct(values, 1);
      assert !Stops(values, target, j - 1);
      var i, i' :| 0 <= i < i' < j && values[i] == values[i'];
      assert i' == j - 1;
    } else {
      assert Distinct(values, j);
      forall i | 0 <= i < j && values[i] + values[j] == target ensures i == s.index {
        assert values[i] == values[s.index];
      }
    }
  }

  /** The pass is exhausted exactly when no two values add up to the target and none repeats before the last. */
  lemma ExhaustedIffNoPair(values: seq<int>, target: int)
    ensures TwoSum(values, target) == Val(Exhausted) <==>
      && |values| >= 2
      && (forall j :: 0 <= j < |values| ==> !HasPairAt(values, target, j))
      && Distinct(values, |values| - 1)
  {
    if |values| < 2 {
      assert TwoSum(values, target) != Val(Exhausted);
    } else {
      TwoSumOutcome(values, target);
      var res := TwoSum(values, target);
      if res == Val(Exhausted) {
        assert !Stops(values, target, |values| - 1);
        forall j | 0 <= j < |values| ensures !HasPairAt(values, target, j) {
          assert !Stops(values, target, j);
        }
      } else if Distinct(values, |values| - 1) {
        var j := res.value.second;
        assert 0 <= j < |values| && Stops(values, target, j);
        assert Distinct(values, j);
      }
    }
  }

  /** On values that are all different, a pair answer always carries a real index. */
  lemma DistinctValuesAnswer(values: seq<int>, target: int)
    requires |values| >= 2 && Distinct(values, |values|)
    ensures TwoSum(values, target).Val?
    ensures TwoSum(values, target).value.Pair? ==> TwoSum(values, target).value.first.At?
  {
    TwoSumOutcome(values, target);
  }

  /** Every input of two or more values gives a pair or the exhausted message. */
  lemma AlwaysAnswers(values: seq<int>, target: int)
    ensures values == [] <==> TwoSum(values, target) == Never
    ensures |values| == 1 <==> TwoSum(values, target) == Val(TooFew)
  {
    if |values| >= 2 {
      TwoSumOutcome(values, target);
    }
  }

  // ---------------------------------------------------------------------
  // The fixtures of solutions/1_twosum.ts
  // ---------------------------------------------------------------------

  lemma FirstFixture()
    ensures TwoSum([2, 7, 11, 15], 9) == Val(Pair(At(0), 1))
  {
    assert [2, 7, 11, 15][1..] == [7, 11, 15];
  }

  lemma SecondFixture()
    ensures TwoSum([3, 2, 4], 6) == Val(Pair(At(1), 2))
  {
    assert [3, 2, 4][1..] == [2, 4];
    assert [2, 4][1..] == [4];
  }

  lemma ThirdFixture()
    ensures TwoSum([3, 3], 6) == Val(Pair(At(0), 1))
  {
    assert [3, 3][1..] == [3];
  }

  lemma FourthFixture()
    ensures TwoSum([1, 2, 3, 4, 5], 12) == Val(Exhausted)
  {
    assert [1, 2, 3, 4, 5][1..] == [2, 3, 4, 5];
    assert [2, 3, 4, 5][1..] == [3, 4, 5];
    assert [3, 4, 5][1..] == [4, 5];
    assert [4, 5][1..] == [5];
  }

  lemma FifthFixture()
    ensures TwoSum([-1, 2, -3], -1) == Val(Pair(At(1), 2))
  {
    assert [-1, 2, -3][1..] == [2, -3];
    assert [2, -3][1..] == [-3];
  }

  // ---------------------------------------------------------------------
  // A value that repeats before the answer
  // ---------------------------------------------------------------------

  /** The second 1 adds key 99 again: the map becomes `never`, and 5 answers at once. */
  lemma RepeatedValue()
    ensures TwoSum([1, 1, 5], 100) == Val(Pair(Collapsed, 2))
  {
    assert [1, 1, 5][1..] == [1, 5];
    assert [1, 5][1..] == [5];
  }

  /** The answer [2, 3] is never reached: the repeated 1 collapses the map first. */
  lemma RepeatedValueHidesPair()
    ensures TwoSum([1, 1, 2, 3], 5) == Val(Pair(Collapsed, 2))
    ensures HasPairAt([1, 1, 2, 3], 5, 3)
  {
    assert [1, 1, 2, 3][1..] == [1, 2, 3];
    assert [1, 2, 3][1..] == [2, 3];
    assert [1, 1, 2, 3][2] + [1, 1, 2, 3][3] == 5;
  }
}
