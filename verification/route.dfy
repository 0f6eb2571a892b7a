/**
 The PERCURSO (route) line of the manifest: the `UFPer` value extracted from
 each child of `ide`, in document order, glued together with " / ".
 Each child is represented by the string already extracted from it ("" when
 the child carries no `UFPer`).
 */
module Route {
  import opened Text

  /** The separator written between route entries. */
  const Sep: string := " / "

  /** One pass of the loop body: a separator only once something was written. */
  function Step(acc: string, value: string): string {
    (if acc != "" then acc + Sep else acc) + value
  }

  /** The accumulated route string after the loop, before the trailing trim. */
  function Accumulate(values: seq<string>): (acc: string)
    ensures acc == "" <==> AllEmpty(values)
    decreases |values|
  {
    if |values| == 0 then ""
    else
      var init := values[..|values| - 1];
      assert forall i :: 0 <= i < |init| ==> init[i] == values[i];
      Step(Accumulate(init), values[|values| - 1])
  }

  /** The trim after the loop: at most one trailing separator is removed. */
  function TrimSeparator(s: string): (r: string)
    ensures EndsWith(s, Sep) ==> r + Sep == s
    ensures !EndsWith(s, Sep) ==> r == s
  {
    if EndsWith(s, Sep) then s[..|s| - |Sep|] else s
  }

  /**
   The route string as the renderer builds it. It is empty exactly when every
   value is empty, or when the only non-empty value is a last one equal to the
   separator itself (the trim then removes it).
   */
  function BuildRoute(values: seq<string>): (route: string)
    ensures route == "" <==>
              AllEmpty(values)
              || (|values| > 0 && values[|values| - 1] == Sep && AllEmpty(values[..|values| - 1]))
  {
    var acc := Accumulate(values);
    assert |values| > 0 && Accumulate(values[..|values| - 1]) != "" ==>
             |acc| >= |Accumulate(values[..|values| - 1])| + |Sep|;
    TrimSeparator(acc)
  }

  /** Sep followed by each value in turn: what every child after the first non-empty one adds. */
  function Separated(values: seq<string>): string
    decreases |values|
  {
    if |values| == 0 then "" else Sep + values[0] + Separated(values[1..])
  }

  /** The separator repeated `count` times. */
  function RepeatSep(count: nat): string {
    if count == 0 then "" else Sep + RepeatSep(count - 1)
  }

  lemma {:induction false} SeparatedSnoc(values: seq<string>, value: string)
    ensures Separated(values + [value]) == Separated(values) + Sep + value
    decreases |values|
  {
    if |values| == 0 {
      assert Separated([value]) == Sep + value + Separated([]);
    } else {
      assert (values + [value])[1..] == values[1..] + [value];
      SeparatedSnoc(values[1..], value);
    }
  }

  lemma {:induction false} SeparatedOfEmpties(values: seq<string>)
    requires AllEmpty(values)
    ensures Separated(values) == RepeatSep(|values|)
    decreases |values|
  {
    if |values| > 0 {
      SeparatedOfEmpties(values[1..]);
    }
  }

  lemma {:induction false} RepeatSepSnoc(count: nat)
    ensures RepeatSep(count + 1) == RepeatSep(count) + Sep
  {
    if count > 0 {
      RepeatSepSnoc(count - 1);
    }
  }

  /** Once something has been written, every later child adds Sep and its own value, even an empty one. */
  lemma {:induction false} AccumulateAfterStart(written: seq<string>, later: seq<string>)
    requires Accumulate(written) != ""
    ensures Accumulate(written + later) == Accumulate(written) + Separated(later)
    decreases |later|
  {
    if |later| == 0 {
      assert written + later == written;
    } else {
      var n := |later| - 1;
      var all := written + later;
      assert all[..|all| - 1] == written + later[..n];
      assert all[|all| - 1] == later[n];
      AccumulateAfterStart(written, later[..n]);
      assert Accumulate(all) == Accumulate(written + later[..n]) + Sep + later[n];
      SeparatedSnoc(later[..n], later[n]);
      assert later == later[..n] + [later[n]];
    }
  }

  /** Leading children whose value is empty contribute nothing. */
  lemma {:induction false} LeadingEmptiesIgnored(empties: seq<string>, rest: seq<string>)
    requires AllEmpty(empties)
    ensures Accumulate(empties + rest) == Accumulate(rest)
    decreases |rest|
  {
    if |rest| == 0 {
      assert empties + rest == empties;
    } else {
      var n := |rest| - 1;
      var all := empties + rest;
      assert all[..|all| - 1] == empties + rest[..n];
      assert all[|all| - 1] == rest[n];
      LeadingEmptiesIgnored(empties, rest[..n]);
      assert Accumulate(all) == Step(Accumulate(rest[..n]), rest[n]);
    }
  }

  /**
   The accumulated string starts with the first non-empty value, with no
   separator in front, and each later child adds Sep and its value.
   */
  lemma FirstValueLeads(empties: seq<string>, first: string, rest: seq<string>)
    requires AllEmpty(empties)
    requires first != ""
    ensures Accumulate(empties + [first] + rest) == first + Separated(rest)
  {
    LeadingEmptiesIgnored(empties, [first]);
    assert Accumulate([first]) == first by {
      assert [first][..0] == [];
    }
    AccumulateAfterStart(empties + [first], rest);
  }

  /** When no value is the bare separator, the route is empty exactly when every value is. */
  lemma RouteEmptyIffAllEmpty(values: seq<string>)
    requires forall i :: 0 <= i < |values| ==> values[i] != Sep
    ensures BuildRoute(values) == "" <==> AllEmpty(values)
  {
  }

  /** With every value non-empty, the accumulated string is exactly the join. */
  lemma {:induction false} AccumulateIsJoin(values: seq<string>)
    requires NoneEmpty(values)
    ensures Accumulate(values) == Join(values, Sep)
    decreases |values|
  {
    if |values| == 1 {
      assert values[..0] == [];
    } else if |values| > 1 {
      var n := |values| - 1;
      var init := values[..n];
      AccumulateIsJoin(init);
      JoinSnoc(init, Sep, values[n]);
      assert values == init + [values[n]];
    }
  }

  /**
   Appending a non-empty value to text that ends in the separator ends in the
   separator again exactly when the value ends in it or is "/ " (whose slash
   and space complete the trailing space before it).
   */
  lemma SepSuffixAfterSep(prefix: string, last: string)
    requires EndsWith(prefix, Sep)
    requires last != ""
    ensures EndsWith(prefix + last, Sep) <==> EndsWith(last, Sep) || last == "/ "
  {
    var s := prefix + last;
    if |last| >= 3 {
      assert s[|s| - 3..] == last[|last| - 3..];
    } else if |last| == 2 {
      assert s[|s| - 3..] == [prefix[|prefix| - 1]] + last;
      assert prefix[|prefix| - 1] == ' ';
      assert Sep == [' '] + "/ ";
      if [' '] + last == Sep {
        assert last == ([' '] + last)[1..] == Sep[1..];
      }
    } else {
      assert s[|s| - 3] == prefix[|prefix| - 2] == '/';
    }
  }

  /** When the join of non-empty parts ends in the separator: the last part does, or it is "/ " after another part. */
  lemma JoinTrailingSep(parts: seq<string>)
    requires |parts| > 0
    requires NoneEmpty(parts)
    ensures EndsWith(Join(parts, Sep), Sep) <==>
              EndsWith(parts[|parts| - 1], Sep) || (|parts| > 1 && parts[|parts| - 1] == "/ ")
  {
    var last := parts[|parts| - 1];
    if |parts| == 1 {
      assert Join(parts, Sep) == last;
    } else {
      JoinSplitLast(parts, Sep);
      var prefix := Join(parts[..|parts| - 1], Sep) + Sep;
      assert prefix[|prefix| - |Sep|..] == Sep;
      SepSuffixAfterSep(prefix, last);
    }
  }

  /**
   With every value non-empty, the route is the values joined by " / " in
   document order exactly when the last value does not end in " / " and,
   when it follows another value, is not "/ ".
   */
  lemma RouteIsJoin(values: seq<string>)
    requires NoneEmpty(values)
    ensures BuildRoute(values) == Join(values, Sep) <==>
              |values| == 0
              || (!EndsWith(values[|values| - 1], Sep) && (|values| > 1 ==> values[|values| - 1] != "/ "))
  {
    AccumulateIsJoin(values);
    if |values| > 0 {
      JoinTrailingSep(values);
    }
  }

  /** A concrete case of the exception above: after another value, a last value "/ " loses its slash to the trim. */
  lemma SlashSpaceLastIsTrimmed()
    ensures BuildRoute(["SP", "/ "]) == "SP /"
    ensures Join(["SP", "/ "], Sep) == "SP / / "
  {
    assert Accumulate(["SP", "/ "]) == "SP / / " by {
      assert ["SP", "/ "][..1] == ["SP"];
      assert ["SP"][..0] == [];
    }
    assert EndsWith("SP / / ", Sep);
    assert "SP / / "[..4] == "SP /";
  }

  /**
   As written: with k >= 1 trailing children whose value is empty after
   something was written, the trim removes only one of the k separators.
   */
  lemma TrailingEmptiesKeepSeparators(written: seq<string>, trailing: seq<string>)
    requires Accumulate(written) != ""
    requires |trailing| > 0
    requires AllEmpty(trailing)
    ensures BuildRoute(written + trailing) == Accumulate(written) + RepeatSep(|trailing| - 1)
  {
    AccumulateAfterStart(written, trailing);
    SeparatedOfEmpties(trailing);
    RepeatSepSnoc(|trailing| - 1);
    var body := Accumulate(written) + RepeatSep(|trailing| - 1);
    assert Accumulate(written + trailing) == body + Sep;
    assert EndsWith(body + Sep, Sep);
    assert (body + Sep)[..|body + Sep| - |Sep|] == body;
  }

  /** A concrete instance: two states followed by two children without UFPer. */
  lemma TwoTrailingEmptiesExample()
    ensures BuildRoute(["MG", "SP", "", ""]) == "MG / SP / "
  {
    var written: seq<string> := ["MG", "SP"];
    FirstValueLeads([], "MG", ["SP"]);
    assert [] + ["MG"] + ["SP"] == written;
    assert Separated(["SP"]) == Sep + "SP" by {
      assert ["SP"][1..] == [];
    }
    assert Accumulate(written) == "MG / SP";
    TrailingEmptiesKeepSeparators(written, ["", ""]);
    assert RepeatSep(1) == Sep;
    assert written + ["", ""] == ["MG", "SP", "", ""];
  }

  /** The evidently intended route: the non-empty values joined by " / ". */
  function IntendedRoute(values: seq<string>): (route: string)
    ensures route == "" <==> AllEmpty(values)
  {
    JoinEmptyIff(NonEmptyOnly(values), Sep);
    Join(NonEmptyOnly(values), Sep)
  }

  /** Trailing children without a value leave the intended route unchanged. */
  lemma IntendedRouteIgnoresTrailingEmpties(values: seq<string>, trailing: seq<string>)
    requires AllEmpty(trailing)
    ensures IntendedRoute(values + trailing) == IntendedRoute(values)
  {
    NonEmptyOnlyDropsEmptyTail(values, trailing);
  }

  /** The intended route never ends in the separator when no value ends in " / " or is "/ ". */
  lemma IntendedRouteNoTrailingSep(values: seq<string>)
    requires forall i :: 0 <= i < |values| ==> !EndsWith(values[i], Sep) && values[i] != "/ "
    ensures !EndsWith(IntendedRoute(values), Sep)
  {
    var kept := NonEmptyOnly(values);
    if |kept| > 0 {
      NonEmptyOnlyByIndex(values);
      assert kept[|kept| - 1] == values[KeptIndices(values)[|kept| - 1]];
      JoinTrailingSep(kept);
    }
  }

  /** On clean input (every value non-empty, last not ending in " / " nor "/ ") the code as written meets the intent. */
  lemma RouteAgreesWithIntended(values: seq<string>)
    requires NoneEmpty(values)
    requires |values| > 0 ==> !EndsWith(values[|values| - 1], Sep) && values[|values| - 1] != "/ "
    ensures BuildRoute(values) == IntendedRoute(values)
  {
    RouteIsJoin(values);
    NonEmptyOnlyKeepsAll(values);
  }
}
