/**
 * `combine(n, k)`: every way of drawing `k` of the numbers 0 ..< n, each as
 * an increasing list, found by backtracking over a shared partial
 * combination and a shared result list.
 */
module Combinations {

  /** The numbers of `c` increase strictly from left to right. */
  ghost predicate Increasing(c: seq<int>)
  {
    forall i, j | 0 <= i < j < |c| :: c[i] < c[j]
  }

  /** `c` draws `k` numbers of 0 ..< n: it has `k` entries, increasing, all in range. */
  ghost predicate IsCombination(c: seq<int>, n: int, k: int)
  {
    |c| == k && Increasing(c) && forall i | 0 <= i < |c| :: 0 <= c[i] < n
  }

  /**
   * What `backtrack(start)` appends to the result when the partial
   * combination is `comb`: `comb` itself once it has `k` entries, otherwise
   * the extensions by every `i` in start ..< n, in increasing order of `i`.
   */
  ghost function Extensions(n: int, k: int, start: int, comb: seq<int>): seq<seq<int>>
    requires start <= n || |comb| == k
    decreases n - start, 1
  {
    if |comb| == k then [comb] else ExtensionsFrom(n, k, start, comb)
  }

  /** What the loop of `backtrack` appends from iteration `i` on. */
  ghost function ExtensionsFrom(n: int, k: int, i: int, comb: seq<int>): seq<seq<int>>
    requires i <= n
    decreases n - i, 0
  {
    if i == n then [] else Extensions(n, k, i + 1, comb + [i]) + ExtensionsFrom(n, k, i + 1, comb)
  }

  /** The result of `combine(n, k)`. */
  ghost function Combinations(n: int, k: int): seq<seq<int>>
    requires n >= 0 || k == 0
  {
    Extensions(n, k, 0, [])
  }

  /**
   * The nested `backtrack(start)`: appends `Extensions(n, k, start, comb)` to
   * the result and leaves the partial combination as it found it (every
   * `append` is undone by a `removeLast`).
   */
  method Backtrack(n: int, k: int, start: int, combination: seq<int>, result: seq<seq<int>>)
    returns (combination': seq<int>, result': seq<seq<int>>)
    requires start <= n || |combination| == k
    ensures combination' == combination
    ensures result' == result + Extensions(n, k, start, combination)
    decreases n - start
  {
    combination', result' := combination, result;
    if |combination'| == k {
      result' := result' + [combination'];
      return;
    }
    for i := start to n
      invariant combination' == combination
      invariant result' + ExtensionsFrom(n, k, i, combination) == result + ExtensionsFrom(n, k, start, combination)
    {
      combination' := combination' + [i];
      combination', result' := Backtrack(n, k, i + 1, combination', result');
      combination' := combination'[..|combination'| - 1];
    }
  }

  /**
   * `combine(n, k)`: the increasing draws of `k` of 0 ..< n, each exactly
   * once, in strictly increasing lexicographic order, Binomial(n, k) of
   * them. A negative `n` traps in the loop's range unless `k` is 0.
   */
  method Combine(n: int, k: int) returns (result: seq<seq<int>>)
    requires n >= 0 || k == 0
    ensures result == Combinations(n, k)
    ensures forall c | c in result :: IsCombination(c, n, k)
    ensures forall c | IsCombination(c, n, k) :: c in result
    ensures LexSorted(result)
    ensures n >= 0 && k >= 0 ==> |result| == Binomial(n, k)
    ensures k < 0 || (n >= 0 && k > n) ==> result == []
  {
    var combination: seq<int> := [];
    combination, result := Backtrack(n, k, 0, combination, []);
    CombinationsSound(n, k);
    CombinationsComplete(n, k);
    CombinationsSorted(n, k);
    if n >= 0 && k >= 0 {
      CombinationsCount(n, k);
      if k > n {
        BinomialBeyond(n, k);
      }
    } else if k < 0 {
      ExtensionsOverlong(n, k, 0, []);
    }
  }

  // ---------------------------------------------------------------- soundness

  /** The extensions of `comb` keep it as a prefix and add increasing numbers of start ..< n. */
  ghost predicate ExtendsWithin(c: seq<int>, comb: seq<int>, start: int, n: int)
  {
    |comb| <= |c| && c[..|comb|] == comb
    && (forall j | |comb| <= j < |c| :: start <= c[j] < n)
    && forall i, j | |comb| <= i < j < |c| :: c[i] < c[j]
  }

  lemma {:induction false} ExtensionsSound(n: int, k: int, start: int, comb: seq<int>)
    requires start <= n || |comb| == k
    ensures forall c | c in Extensions(n, k, start, comb) :: |c| == k && ExtendsWithin(c, comb, start, n)
    decreases n - start, 1
  {
    if |comb| != k {
      ExtensionsFromSound(n, k, start, comb);
    }
  }

  lemma {:induction false} ExtensionsFromSound(n: int, k: int, i: int, comb: seq<int>)
    requires i <= n
    ensures forall c | c in ExtensionsFrom(n, k, i, comb) :: |c| == k && ExtendsWithin(c, comb, i, n)
    decreases n - i, 0
  {
    if i < n {
      var comb' := comb + [i];
      ExtensionsSound(n, k, i + 1, comb');
      ExtensionsFromSound(n, k, i + 1, comb);
      forall c | c in Extensions(n, k, i + 1, comb') ensures ExtendsWithin(c, comb, i, n) {
        assert c[..|comb'|][..|comb|] == c[..|comb|];
        assert c[|comb|] == c[..|comb'|][|comb|] == i;
      }
    }
  }

  /** Every list `combine(n, k)` returns is an increasing draw of `k` of 0 ..< n. */
  lemma CombinationsSound(n: int, k: int)
    requires n >= 0 || k == 0
    ensures forall c | c in Combinations(n, k) :: IsCombination(c, n, k)
  {
    ExtensionsSound(n, k, 0, []);
  }

  /** A partial combination already longer than `k` is never completed. */
  lemma {:induction false} ExtensionsOverlong(n: int, k: int, start: int, comb: seq<int>)
    requires start <= n && |comb| > k
    ensures Extensions(n, k, start, comb) == []
    decreases n - start, 1
  {
    ExtensionsFromOverlong(n, k, start, comb);
  }

  lemma {:induction false} ExtensionsFromOverlong(n: int, k: int, i: int, comb: seq<int>)
    requires i <= n && |comb| > k
    ensures ExtensionsFrom(n, k, i, comb) == []
    decreases n - i, 0
  {
    if i < n {
      ExtensionsOverlong(n, k, i + 1, comb + [i]);
      ExtensionsFromOverlong(n, k, i + 1, comb);
    }
  }

  // ------------------------------------------------------------- completeness

  lemma {:induction false} ExtensionsComplete(n: int, k: int, start: int, comb: seq<int>, c: seq<int>)
    requires start <= n || |comb| == k
    requires |c| == k && ExtendsWithin(c, comb, start, n)
    ensures c in Extensions(n, k, start, comb)
    decreases n - start, 1
  {
    if |comb| == k {
      assert c == c[..|comb|];
    } else {
      ExtensionsFromComplete(n, k, start, comb, c);
    }
  }

  lemma {:induction false} ExtensionsFromComplete(n: int, k: int, i: int, comb: seq<int>, c: seq<int>)
    requires i <= n && |comb| < |c| && c[..|comb|] == comb
    requires |c| == k && ExtendsWithin(c, comb, i, n)
    ensures c in ExtensionsFrom(n, k, i, comb)
    decreases n - i, 0
  {
    var x := c[|comb|];
    if x == i {
      var comb' := comb + [i];
      assert c[..|comb'|] == comb';
      ExtensionsComplete(n, k, i + 1, comb', c);
    } else {
      ExtensionsFromComplete(n, k, i + 1, comb, c);
    }
  }

  /** Every increasing draw of `k` of 0 ..< n is among the lists `combine(n, k)` returns. */
  lemma CombinationsComplete(n: int, k: int)
    requires n >= 0 || k == 0
    ensures forall c | IsCombination(c, n, k) :: c in Combinations(n, k)
  {
    forall c | IsCombination(c, n, k) ensures c in Combinations(n, k) {
      if |c| == 0 {
        assert c == [];
      } else {
        assert c[..0] == [];
        ExtensionsComplete(n, k, 0, [], c);
      }
    }
  }

  // ----------------------------------------------------------------- ordering

  /** `a` comes strictly before `b`: they agree up to a position where `a` is smaller. */
  ghost predicate LexLess(a: seq<int>, b: seq<int>)
  {
    exists j | 0 <= j < |a| && j < |b| :: a[..j] == b[..j] && a[j] < b[j]
  }

  /** The lists come in strictly increasing lexicographic order, so none repeats. */
  ghost predicate LexSorted(r: seq<seq<int>>)
  {
    forall i, j | 0 <= i < j < |r| :: LexLess(r[i], r[j])
  }

  /** Lists of a sorted sequence are pairwise different. */
  lemma LexSortedDistinct(r: seq<seq<int>>)
    requires LexSorted(r)
    ensures forall i, j | 0 <= i < j < |r| :: r[i] != r[j]
  {
    forall i, j | 0 <= i < j < |r| ensures r[i] != r[j] {
      assert LexLess(r[i], r[j]);
    }
  }

  /** Two sorted runs, every list of the first before every list of the second. */
  lemma LexSortedAppend(x: seq<seq<int>>, y: seq<seq<int>>)
    requires LexSorted(x) && LexSorted(y)
    requires forall a, b | a in x && b in y :: LexLess(a, b)
    ensures LexSorted(x + y)
  {
    var r := x + y;
    forall i, j | 0 <= i < j < |r| ensures LexLess(r[i], r[j]) {
      if j < |x| {
        assert r[i] == x[i] && r[j] == x[j];
      } else if i >= |x| {
        assert r[i] == y[i - |x|] && r[j] == y[j - |x|];
      } else {
        assert r[i] in x && r[j] in y;
      }
    }
  }

  lemma {:induction false} ExtensionsSorted(n: int, k: int, start: int, comb: seq<int>)
    requires start <= n || |comb| == k
    ensures LexSorted(Extensions(n, k, start, comb))
    decreases n - start, 1
  {
    if |comb| != k {
      ExtensionsFromSorted(n, k, start, comb);
    }
  }

  lemma {:induction false} ExtensionsFromSorted(n: int, k: int, i: int, comb: seq<int>)
    requires i <= n
    ensures LexSorted(ExtensionsFrom(n, k, i, comb))
    decreases n - i, 0
  {
    if i < n {
      var comb' := comb + [i];
      var x := Extensions(n, k, i + 1, comb');
      var y := ExtensionsFrom(n, k, i + 1, comb);
      ExtensionsSorted(n, k, i + 1, comb');
      ExtensionsFromSorted(n, k, i + 1, comb);
      ExtensionsSound(n, k, i + 1, comb');
      ExtensionsFromSound(n, k, i + 1, comb);
      forall a, b | a in x && b in y ensures LexLess(a, b) {
        var m := |comb|;
        assert a[..|comb'|][..m] == a[..m];
        assert a[m] == a[..|comb'|][m] == i;
        assert b[m] >= i + 1;
        assert a[..m] == b[..m];
      }
      LexSortedAppend(x, y);
    }
  }

  /** `combine(n, k)` lists its draws in strictly increasing lexicographic order. */
  lemma CombinationsSorted(n: int, k: int)
    requires n >= 0 || k == 0
    ensures LexSorted(Combinations(n, k))
  {
    ExtensionsSorted(n, k, 0, []);
  }

  // ------------------------------------------------------------------- count

  /** The binomial coefficient, by Pascal's rule. */
  function Binomial(m: nat, r: nat): nat
    decreases m
  {
    if r == 0 then 1 else if m == 0 then 0 else Binomial(m - 1, r - 1) + Binomial(m - 1, r)
  }

  lemma {:induction false} ExtensionsCount(n: int, k: int, start: int, comb: seq<int>)
    requires start <= n && |comb| <= k
    ensures |Extensions(n, k, start, comb)| == Binomial(n - start, k - |comb|)
    decreases n - start, 1
  {
    if |comb| != k {
      ExtensionsFromCount(n, k, start, comb);
    }
  }

  lemma {:induction false} ExtensionsFromCount(n: int, k: int, i: int, comb: seq<int>)
    requires i <= n && |comb| < k
    ensures |ExtensionsFrom(n, k, i, comb)| == Binomial(n - i, k - |comb|)
    decreases n - i, 0
  {
    if i < n {
      ExtensionsCount(n, k, i + 1, comb + [i]);
      ExtensionsFromCount(n, k, i + 1, comb);
    }
  }

  /** `combine(n, k)` returns Binomial(n, k) lists. */
  lemma CombinationsCount(n: nat, k: nat)
    ensures |Combinations(n, k)| == Binomial(n, k)
  {
    ExtensionsCount(n, k, 0, []);
  }

  /** The draw the tests make: `combine(6, 4)` has 15 entries. */
  lemma CombineSixFour()
    ensures |Combinations(6, 4)| == 15
  {
    CombinationsCount(6, 4);
    BinomialSixFour();
  }

  lemma BinomialSixFour()
    ensures Binomial(6, 4) == 15
  {
    assert Binomial(2, 1) == 2;
    assert Binomial(3, 2) == 3;
    assert Binomial(4, 3) == 4;
    assert Binomial(4, 2) == 6;
    assert Binomial(5, 3) == 10;
    assert Binomial(5, 4) == 5;
  }

  /** More numbers drawn than there are gives no combination at all. */
  lemma BinomialBeyond(m: nat, r: nat)
    requires r > m
    ensures Binomial(m, r) == 0
  {
  }
}
