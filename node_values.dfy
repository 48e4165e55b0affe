/**
 The node values of a network: a sequence of reals, one per node. This module
 gives the specifications of the two operations that build a new value
 sequence: the descending copy returned by sorted_values and the result of
 set_values.
 */
module NodeValues {

  /** Non-increasing order. */
  ghost predicate Descending(s: seq<real>)
  {
    forall i, j :: 0 <= i < j < |s| ==> s[i] >= s[j]
  }

  /** `x` inserted into a descending sequence at its place. */
  function InsertDescending(x: real, s: seq<real>): (r: seq<real>)
    requires Descending(s)
    ensures Descending(r)
    ensures multiset(r) == multiset(s) + multiset{x}
    ensures |r| == |s| + 1
  {
    if s == [] || x >= s[0] then
      [x] + s
    else
      var rest := InsertDescending(x, s[1..]);
      KeepHead(x, s, rest);
      [s[0]] + rest
  }

  /** Putting the head of `s` back in front of `x` inserted into its tail. */
  lemma KeepHead(x: real, s: seq<real>, rest: seq<real>)
    requires Descending(s) && s != [] && x < s[0]
    requires Descending(rest) && multiset(rest) == multiset(s[1..]) + multiset{x}
    ensures Descending([s[0]] + rest)
    ensures multiset([s[0]] + rest) == multiset(s) + multiset{x}
  {
    BoundedByHead(x, s, rest);
    assert s == [s[0]] + s[1..];
  }

  lemma BoundedByHead(x: real, s: seq<real>, rest: seq<real>)
    requires Descending(s) && s != [] && x < s[0]
    requires multiset(rest) == multiset(s[1..]) + multiset{x}
    ensures forall k :: 0 <= k < |rest| ==> rest[k] <= s[0]
  {
    forall k | 0 <= k < |rest| ensures rest[k] <= s[0] {
      assert rest[k] in multiset(rest);
      if rest[k] != x {
        assert rest[k] in multiset(s[1..]);
        var j :| 0 <= j < |s[1..]| && s[1..][j] == rest[k];
        assert s[j + 1] == rest[k];
      }
    }
  }

  /** A copy of `s` in non-increasing order (the result of sorting with a
      greater-than comparison). */
  function SortDescending(s: seq<real>): (r: seq<real>)
    ensures Descending(r)
    ensures multiset(r) == multiset(s)
    ensures |r| == |s|
  {
    if s == [] then []
    else
      assert s == [s[0]] + s[1..];
      InsertDescending(s[0], SortDescending(s[1..]))
  }

  /** The first element of a descending sequence is its largest. */
  lemma SortedHeadIsMaximum(s: seq<real>, i: nat)
    requires i < |s|
    ensures SortDescending(s)[0] >= s[i]
  {
    var r := SortDescending(s);
    assert s[i] in multiset(s);
    assert s[i] in r;
  }

  /** Two descending sequences with the same elements start with the same
      (largest) element. */
  lemma SameHead(t: seq<real>, u: seq<real>)
    requires Descending(t) && Descending(u) && multiset(t) == multiset(u) && t != []
    ensures u != [] && t[0] == u[0]
  {
    assert t[0] in multiset(u);
    assert u[0] in multiset(t);
  }

  /** The tail of a sequence holds its elements less one copy of the head. */
  lemma TailMultiset(t: seq<real>)
    requires t != []
    ensures multiset(t[1..]) == multiset(t) - multiset{t[0]}
  {
    assert t == [t[0]] + t[1..];
  }

  /** Two descending sequences with the same elements are equal: the order
      of a descending copy leaves no choice, even among equal values. */
  lemma {:induction false} DescendingUnique(t: seq<real>, u: seq<real>)
    requires Descending(t) && Descending(u) && multiset(t) == multiset(u)
    ensures t == u
  {
    if t != [] {
      SameHead(t, u);
      TailMultiset(t);
      TailMultiset(u);
      DescendingUnique(t[1..], u[1..]);
    }
  }

  /** Any descending permutation of `s` is the sorted copy. */
  lemma SortUnique(s: seq<real>, t: seq<real>)
    requires Descending(t) && multiset(t) == multiset(s)
    ensures t == SortDescending(s)
  {
    DescendingUnique(t, SortDescending(s));
  }

  /**
   The values after set_values(newValues), as the code computes them: when
   newValues is longer than the current values only the first |current| of
   them are kept; otherwise the values become newValues, whatever their
   length. Either way the result is the first min(|current|, |newValues|) new
   values, and no old value survives.
   */
  function SetValuesResult(current: seq<real>, newValues: seq<real>): (r: seq<real>)
    ensures |r| == if |newValues| < |current| then |newValues| else |current|
    ensures r == newValues[..|r|]
  {
    if |current| < |newValues| then newValues[..|current|] else newValues
  }

  /**
   The values after set_values(newValues) as documented: the first
   min(|current|, |newValues|) positions take the new values, the others keep
   theirs, and the length is unchanged.
   */
  function OverwritePrefix(current: seq<real>, newValues: seq<real>): (r: seq<real>)
    ensures |r| == |current|
    ensures forall i :: 0 <= i < |r| ==>
              r[i] == (if i < |newValues| then newValues[i] else current[i])
  {
    if |newValues| < |current| then newValues + current[|newValues|..]
    else newValues[..|current|]
  }

  /** When at least as many new values are given as there are nodes, the code
      keeps the length and overwrites every value, as documented. */
  lemma SetValuesKeepsSize(current: seq<real>, newValues: seq<real>)
    requires |newValues| >= |current|
    ensures |SetValuesResult(current, newValues)| == |current|
    ensures forall i :: 0 <= i < |current| ==> SetValuesResult(current, newValues)[i] == newValues[i]
    ensures SetValuesResult(current, newValues) == OverwritePrefix(current, newValues)
  {
  }

  /** With fewer new values than nodes the code shrinks the values to the new
      vector, which the documented behaviour does not. */
  lemma SetValuesShrinks(current: seq<real>, newValues: seq<real>)
    requires |newValues| < |current|
    ensures SetValuesResult(current, newValues) == newValues
    ensures |SetValuesResult(current, newValues)| < |current|
    ensures SetValuesResult(current, newValues) != OverwritePrefix(current, newValues)
  {
  }

  /** The five-node example: the code yields [9, 9, 9], the documented
      behaviour [9, 9, 9, 4, 5]. */
  lemma SetValuesShrinkExample()
    ensures SetValuesResult([1.0, 2.0, 3.0, 4.0, 5.0], [9.0, 9.0, 9.0]) == [9.0, 9.0, 9.0]
    ensures OverwritePrefix([1.0, 2.0, 3.0, 4.0, 5.0], [9.0, 9.0, 9.0]) == [9.0, 9.0, 9.0, 4.0, 5.0]
  {
    var r := OverwritePrefix([1.0, 2.0, 3.0, 4.0, 5.0], [9.0, 9.0, 9.0]);
    assert r == [r[0], r[1], r[2], r[3], r[4]];
  }

  /** The three-node example: four new values are truncated to three. */
  lemma SetValuesTruncateExample()
    ensures SetValuesResult([1.0, 2.0, 3.0], [7.0, 8.0, 9.0, 10.0]) == [7.0, 8.0, 9.0]
  {
  }
}
