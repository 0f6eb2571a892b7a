/** Plain string and string-sequence notions used by the route and key builders. */
module Text {

  /** Python's `s.endswith(suffix)`. */
  predicate EndsWith(s: string, suffix: string) {
    |suffix| <= |s| && s[|s| - |suffix|..] == suffix
  }

  /** Every extracted value is the empty string (vacuously true of no values). */
  predicate AllEmpty(values: seq<string>) {
    forall i :: 0 <= i < |values| ==> values[i] == ""
  }

  /** No extracted value is the empty string. */
  predicate NoneEmpty(values: seq<string>) {
    forall i :: 0 <= i < |values| ==> values[i] != ""
  }

  /** The non-empty values, in their original order. Python treats "" as false. */
  function NonEmptyOnly(values: seq<string>): (kept: seq<string>)
    ensures NoneEmpty(kept)
    ensures |kept| <= |values|
    ensures kept == [] <==> AllEmpty(values)
    decreases |values|
  {
    if |values| == 0 then []
    else
      var init, last := values[..|values| - 1], values[|values| - 1];
      assert forall i :: 0 <= i < |init| ==> init[i] == values[i];
      NonEmptyOnly(init) + (if last != "" then [last] else [])
  }

  /** Each non-empty string is kept exactly as often as it occurs. */
  lemma {:induction false} NonEmptyOnlyCounts(values: seq<string>)
    ensures forall s :: s != "" ==> multiset(NonEmptyOnly(values))[s] == multiset(values)[s]
    decreases |values|
  {
    if |values| > 0 {
      var init, last := values[..|values| - 1], values[|values| - 1];
      NonEmptyOnlyCounts(init);
      assert values == init + [last];
      assert multiset(values) == multiset(init) + multiset{last};
    }
  }

  /** Positions of the non-empty values, ascending: the witnesses of NonEmptyOnly. */
  function KeptIndices(values: seq<string>): seq<nat>
    decreases |values|
  {
    if |values| == 0 then []
    else
      var n := |values| - 1;
      KeptIndices(values[..n]) + (if values[n] != "" then [n] else [])
  }

  /** KeptIndices lists, in ascending order, only positions holding a non-empty value. */
  lemma {:induction false} KeptIndicesSound(values: seq<string>)
    ensures forall k :: 0 <= k < |KeptIndices(values)| ==>
              KeptIndices(values)[k] < |values| && values[KeptIndices(values)[k]] != ""
    ensures forall k, l :: 0 <= k < l < |KeptIndices(values)| ==> KeptIndices(values)[k] < KeptIndices(values)[l]
    decreases |values|
  {
    if |values| > 0 {
      var n := |values| - 1;
      var init := values[..n];
      KeptIndicesSound(init);
      var idxInit := KeptIndices(init);
      var idx := KeptIndices(values);
      assert forall k :: 0 <= k < |idxInit| ==> idx[k] == idxInit[k] < n;
    }
  }

  /** Every position holding a non-empty value is listed by KeptIndices. */
  lemma {:induction false} KeptIndicesComplete(values: seq<string>)
    ensures forall i :: 0 <= i < |values| && values[i] != "" ==> i in KeptIndices(values)
    decreases |values|
  {
    if |values| > 0 {
      var n := |values| - 1;
      var init := values[..n];
      KeptIndicesComplete(init);
      var idxInit := KeptIndices(init);
      var idx := KeptIndices(values);
      assert idx[..|idxInit|] == idxInit;
      forall i | 0 <= i < |values| && values[i] != ""
        ensures i in idx
      {
        if i < n {
          assert init[i] == values[i];
          assert i in idxInit;
        }
      }
    }
  }

  /** NonEmptyOnly picks out exactly the values at KeptIndices, in that order. */
  lemma {:induction false} NonEmptyOnlyByIndex(values: seq<string>)
    ensures |KeptIndices(values)| == |NonEmptyOnly(values)|
    ensures forall k :: 0 <= k < |KeptIndices(values)| ==>
              KeptIndices(values)[k] < |values| && NonEmptyOnly(values)[k] == values[KeptIndices(values)[k]]
    decreases |values|
  {
    if |values| > 0 {
      var n := |values| - 1;
      var init := values[..n];
      NonEmptyOnlyByIndex(init);
      var idxInit, keptInit := KeptIndices(init), NonEmptyOnly(init);
      var idx, kept := KeptIndices(values), NonEmptyOnly(values);
      assert idx[..|idxInit|] == idxInit;
      assert kept[..|keptInit|] == keptInit;
      forall k | 0 <= k < |idx|
        ensures idx[k] < |values| && kept[k] == values[idx[k]]
      {
        if k < |idxInit| {
          assert idx[k] == idxInit[k];
          assert kept[k] == keptInit[k];
        }
      }
    }
  }

  /** Filtering keeps every value when none is empty. */
  lemma {:induction false} NonEmptyOnlyKeepsAll(values: seq<string>)
    requires NoneEmpty(values)
    ensures NonEmptyOnly(values) == values
    decreases |values|
  {
    if |values| > 0 {
      var n := |values| - 1;
      NonEmptyOnlyKeepsAll(values[..n]);
      assert values == values[..n] + [values[n]];
    }
  }

  /** Trailing empty values are dropped by the filter. */
  lemma {:induction false} NonEmptyOnlyDropsEmptyTail(values: seq<string>, tail: seq<string>)
    requires AllEmpty(tail)
    ensures NonEmptyOnly(values + tail) == NonEmptyOnly(values)
    decreases |tail|
  {
    if |tail| == 0 {
      assert values + tail == values;
    } else {
      var n := |tail| - 1;
      NonEmptyOnlyDropsEmptyTail(values, tail[..n]);
      var all := values + tail;
      assert all[..|all| - 1] == values + tail[..n];
      assert all[|all| - 1] == tail[n] == "";
    }
  }

  /** Python's `sep.join(parts)`. */
  function Join(parts: seq<string>, sep: string): string
    decreases |parts|
  {
    if |parts| == 0 then ""
    else if |parts| == 1 then parts[0]
    else parts[0] + sep + Join(parts[1..], sep)
  }

  /** Joining one more part appends the separator and that part. */
  lemma {:induction false} JoinSnoc(parts: seq<string>, sep: string, part: string)
    requires |parts| > 0
    ensures Join(parts + [part], sep) == Join(parts, sep) + sep + part
    decreases |parts|
  {
    if |parts| > 1 {
      assert (parts + [part])[1..] == parts[1..] + [part];
      JoinSnoc(parts[1..], sep, part);
    }
  }

  /** The same fact read backwards: a join of several parts ends with the separator and the last part. */
  lemma JoinSplitLast(parts: seq<string>, sep: string)
    requires |parts| > 1
    ensures Join(parts, sep) == Join(parts[..|parts| - 1], sep) + sep + parts[|parts| - 1]
  {
    var init := parts[..|parts| - 1];
    assert parts == init + [parts[|parts| - 1]];
    JoinSnoc(init, sep, parts[|parts| - 1]);
  }

  /** A join of non-empty parts is empty exactly when there are no parts. */
  lemma {:induction false} JoinEmptyIff(parts: seq<string>, sep: string)
    requires NoneEmpty(parts)
    ensures Join(parts, sep) == "" <==> parts == []
  {
    if |parts| > 1 {
      assert |Join(parts, sep)| >= |parts[0]| > 0;
    }
  }
}
