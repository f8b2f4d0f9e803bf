/**
 * The adjacent-duplicate filter of routes_fetcher.py
 * (`get_list_without_adjacent_identical_items`), generic in the item type.
 * The route geometry uses it on points and the station list on
 * (position, name) pairs; items are compared only for equality.
 */
module AdjacentDedup {

  /**
   * No two neighbouring items of `s` are equal. The neighbours are bound as
   * a pair `i`, `j` rather than as `s[i - 1]`, `s[i]`: with a single bound
   * variable the solver can instantiate the quantifier on `s[i - 1]`,
   * then on `s[i - 2]`, and so on without end.
   */
  ghost predicate NoAdjacentIdentical<T>(s: seq<T>) {
    forall i, j :: 0 <= i < j < |s| && j == i + 1 ==> s[i] != s[j]
  }

  /** Position `j` starts a run of equal items: it is the first position,
      or its item differs from the item just before it. */
  predicate StartsRun<T(==)>(s: seq<T>, j: int) {
    0 <= j < |s| && (j == 0 || s[j - 1] != s[j])
  }

  /**
   * What the single left-to-right pass leaves: each item is appended when
   * nothing has been kept yet, skipped when it equals the last item kept,
   * and appended otherwise.
   */
  function WithoutAdjacentIdentical<T(==)>(s: seq<T>): (r: seq<T>)
    ensures |r| <= |s|
    ensures |r| == 0 <==> |s| == 0
    ensures |s| > 0 ==> r[0] == s[0] && r[|r| - 1] == s[|s| - 1]
    ensures NoAdjacentIdentical(r)
  {
    if |s| == 0 then []
    else
      var kept := WithoutAdjacentIdentical(s[..|s| - 1]);
      var item := s[|s| - 1];
      if |kept| == 0 then [item]
      else if item == kept[|kept| - 1] then kept
      else kept + [item]
  }

  /** The pass itself: `output_list` grows by appends inside a `for` loop. */
  method RemoveAdjacentIdentical<T(==)>(source: seq<T>) returns (output: seq<T>)
    ensures output == WithoutAdjacentIdentical(source)
    ensures NoAdjacentIdentical(output)
  {
    output := [];
    for i := 0 to |source|
      invariant output == WithoutAdjacentIdentical(source[..i])
    {
      var item := source[i];
      assert source[..i + 1][..i] == source[..i];
      if |output| == 0 {
        output := output + [item];
        continue;
      }
      if item == output[|output| - 1] {
        continue;
      }
      output := output + [item];
    }
    assert source[..|source|] == source;
  }

  /** The run starts of `s`, in increasing order. */
  ghost function RunStarts<T>(s: seq<T>): seq<int> {
    if |s| == 0 then []
    else if StartsRun(s, |s| - 1) then RunStarts(s[..|s| - 1]) + [|s| - 1]
    else RunStarts(s[..|s| - 1])
  }

  /** Below the last position, a run start of `s` is a run start of `s` without its last item. */
  lemma StartsRunOfPrefix<T>(s: seq<T>)
    requires |s| > 0
    ensures forall j :: 0 <= j < |s| - 1 ==> (StartsRun(s[..|s| - 1], j) <==> StartsRun(s, j))
  {
  }

  /** The run starts are increasing run starts. */
  lemma {:induction false} RunStartsSound<T>(s: seq<T>)
    ensures forall k :: 0 <= k < |RunStarts(s)| ==> StartsRun(s, RunStarts(s)[k])
    ensures forall k, l :: 0 <= k < l < |RunStarts(s)| ==> RunStarts(s)[k] < RunStarts(s)[l]
  {
    if |s| > 0 {
      RunStartsSound(s[..|s| - 1]);
      StartsRunOfPrefix(s);
    }
  }

  /** Every run start is listed. */
  lemma {:induction false} RunStartsComplete<T>(s: seq<T>)
    ensures forall j :: StartsRun(s, j) ==> j in RunStarts(s)
  {
    if |s| > 0 {
      RunStartsComplete(s[..|s| - 1]);
      StartsRunOfPrefix(s);
    }
  }

  /** The filter keeps exactly the items at the run starts. */
  lemma {:induction false} RunStartsSelect<T>(s: seq<T>)
    ensures |RunStarts(s)| == |WithoutAdjacentIdentical(s)|
    ensures forall k :: 0 <= k < |RunStarts(s)| ==> 0 <= RunStarts(s)[k] < |s|
    ensures forall k :: 0 <= k < |RunStarts(s)| ==> WithoutAdjacentIdentical(s)[k] == s[RunStarts(s)[k]]
  {
    if |s| > 0 {
      var init := s[..|s| - 1];
      RunStartsSelect(init);
      var kept := WithoutAdjacentIdentical(init);
      assert |kept| > 0 ==> kept[|kept| - 1] == s[|s| - 2];
      assert StartsRun(s, |s| - 1) <==> |kept| == 0 || s[|s| - 1] != kept[|kept| - 1];
    }
  }

  /**
   * The output is exactly the items at the run starts of the input, in
   * input order: `idx` lists those positions, strictly increasing, and
   * every run start is among them. So the output is an order-preserving
   * subsequence of the input and only adjacent equal items are dropped.
   */
  lemma KeptPositions<T>(s: seq<T>) returns (idx: seq<int>)
    ensures |idx| == |WithoutAdjacentIdentical(s)|
    ensures forall k :: 0 <= k < |idx| ==>
      StartsRun(s, idx[k]) && WithoutAdjacentIdentical(s)[k] == s[idx[k]]
    ensures forall k, l :: 0 <= k < l < |idx| ==> idx[k] < idx[l]
    ensures forall j :: StartsRun(s, j) ==> j in idx
  {
    idx := RunStarts(s);
    RunStartsSound(s);
    RunStartsComplete(s);
    RunStartsSelect(s);
  }

  /** Filtering a prefix of the input gives a prefix of the output. */
  lemma {:induction false} PrefixKeptFirst<T>(s: seq<T>, i: nat)
    requires i <= |s|
    ensures WithoutAdjacentIdentical(s[..i]) <= WithoutAdjacentIdentical(s)
    decreases |s|
  {
    if i < |s| {
      var init := s[..|s| - 1];
      PrefixKeptFirst(init, i);
      assert init[..i] == s[..i];
    } else {
      assert s[..i] == s;
    }
  }

  /** Two neighbouring items that differ both survive, next to each other. */
  lemma {:induction false} DistinctNeighboursKept<T>(s: seq<T>, j: int) returns (k: int)
    requires 0 < j < |s| && s[j - 1] != s[j]
    ensures 0 <= k && k + 1 < |WithoutAdjacentIdentical(s)|
    ensures WithoutAdjacentIdentical(s)[k] == s[j - 1]
    ensures WithoutAdjacentIdentical(s)[k + 1] == s[j]
  {
    var before := WithoutAdjacentIdentical(s[..j]);
    assert s[..j + 1][..j] == s[..j];
    assert WithoutAdjacentIdentical(s[..j + 1]) == before + [s[j]];
    PrefixKeptFirst(s, j + 1);
    k := |before| - 1;
  }

  /**
   * Removing one copy of two equal neighbours does not change the output:
   * an adjacent repetition is collapsed completely.
   */
  lemma {:induction false} DropAdjacentCopy<T>(s: seq<T>, j: int)
    requires 0 < j < |s| && s[j - 1] == s[j]
    ensures WithoutAdjacentIdentical(s[..j] + s[j + 1..]) == WithoutAdjacentIdentical(s)
  {
    var t := s[..j] + s[j + 1..];
    DropAdjacentCopyUpTo(s, j, |s|);
    assert s[..|s|] == s;
    assert t[..|s| - 1] == t;
  }

  /** Helper of DropAdjacentCopy: the two filters agree on every prefix past the copy. */
  lemma {:induction false} DropAdjacentCopyUpTo<T>(s: seq<T>, j: int, m: int)
    requires 0 < j < |s| && s[j - 1] == s[j]
    requires j < m <= |s|
    ensures WithoutAdjacentIdentical((s[..j] + s[j + 1..])[..m - 1]) == WithoutAdjacentIdentical(s[..m])
    decreases m
  {
    var t := s[..j] + s[j + 1..];
    if m == j + 1 {
      assert t[..m - 1] == s[..j];
      assert s[..m][..j] == s[..j];
    } else {
      DropAdjacentCopyUpTo(s, j, m - 1);
      assert t[..m - 1][..m - 2] == t[..m - 2];
      assert s[..m][..m - 1] == s[..m - 1];
      assert t[m - 2] == s[m - 1];
    }
  }

  /** Input already free of adjacent duplicates passes through unchanged. */
  lemma {:induction false} UnchangedWhenNoAdjacentIdentical<T>(s: seq<T>)
    requires NoAdjacentIdentical(s)
    ensures WithoutAdjacentIdentical(s) == s
  {
    if |s| > 0 {
      var init := s[..|s| - 1];
      assert NoAdjacentIdentical(init);
      UnchangedWhenNoAdjacentIdentical(init);
      assert init + [s[|s| - 1]] == s;
    }
  }

  /** Filtering twice is filtering once. */
  lemma Idempotent<T>(s: seq<T>)
    ensures WithoutAdjacentIdentical(WithoutAdjacentIdentical(s)) == WithoutAdjacentIdentical(s)
  {
    UnchangedWhenNoAdjacentIdentical(WithoutAdjacentIdentical(s));
  }

  /** The output holds exactly the values of the input: nothing new, no value lost. */
  lemma {:induction false} SameItems<T>(s: seq<T>)
    ensures forall x :: x in WithoutAdjacentIdentical(s) <==> x in s
  {
    if |s| > 0 {
      var init := s[..|s| - 1];
      SameItems(init);
      assert s == init + [s[|s| - 1]];
    }
  }
}
