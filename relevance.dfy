/**
 * `_filter_relevant_variables`: which discovered variable names the coordinator
 * keeps. A name is kept when it contains a key of either attribute table, contains
 * a controller aggregate name for a controller index 1 to 9, or is a custom-name
 * entry `cust_..._name`.
 */
module Relevance {
  import opened Text
  import opened Constants

  predicate ContainsKeyOf(name: string, table: map<string, string>) {
    exists k | k in table :: Contains(name, k)
  }

  /** `C<i>_<aggregate>` for `i` in `range(1, 10)` occurs in the name. */
  predicate ContainsControllerAggregate(name: string, aggregate: string) {
    exists i: nat | 1 <= i < 10 :: Contains(name, "C" + [DigitChar(i)] + "_" + aggregate)
  }

  predicate IsCustomNameEntry(name: string) {
    StartsWith(name, "cust_") && EndsWith(name, "_name")
  }

  /** The test applied to each name, branch by branch as in the source. */
  predicate IsRelevant(name: string) {
    || ContainsKeyOf(name, VariableMapping)
    || ContainsKeyOf(name, SystemVariableMapping)
    || ContainsControllerAggregate(name, "average_room_temperature")
    || ContainsControllerAggregate(name, "supply_temperature")
    || ContainsControllerAggregate(name, "outdoor_temperature")
    || IsCustomNameEntry(name)
  }

  /** The relevant names of a list, in their original order. */
  function Filtered(names: seq<string>): (r: seq<string>)
    ensures |r| <= |names|
    ensures forall x :: x in r <==> x in names && IsRelevant(x)
  {
    if names == [] then []
    else
      var last := names[|names| - 1];
      assert names == names[..|names| - 1] + [last];
      Filtered(names[..|names| - 1]) + (if IsRelevant(last) then [last] else [])
  }

  /** `a` is `b` with some elements left out, the rest in order. */
  predicate IsSubsequence<T(==)>(a: seq<T>, b: seq<T>)
    decreases |b|
  {
    if a == [] then true
    else if b == [] then false
    else
      || (a[|a| - 1] == b[|b| - 1] && IsSubsequence(a[..|a| - 1], b[..|b| - 1]))
      || IsSubsequence(a, b[..|b| - 1])
  }

  lemma {:induction false} FilteredIsSubsequence(names: seq<string>)
    ensures IsSubsequence(Filtered(names), names)
  {
    if names != [] {
      var init := names[..|names| - 1];
      var last := names[|names| - 1];
      var f := Filtered(init);
      FilteredIsSubsequence(init);
      if IsRelevant(last) {
        assert Filtered(names) == f + [last];
        assert (f + [last])[..|f|] == f;
        assert IsSubsequence(f + [last], names);
      } else {
        assert Filtered(names) == f;
        assert IsSubsequence(f, names);
      }
    }
  }

  /** Filtering an already filtered list changes nothing. */
  lemma {:induction false} FilteredIdempotent(names: seq<string>)
    ensures Filtered(Filtered(names)) == Filtered(names)
  {
    if names != [] {
      var init := names[..|names| - 1];
      var last := names[|names| - 1];
      FilteredIdempotent(init);
      if IsRelevant(last) {
        var f := Filtered(init) + [last];
        assert Filtered(names) == f;
        assert f[..|f| - 1] == Filtered(init);
        assert Filtered(f) == Filtered(Filtered(init)) + [last];
      } else {
        assert Filtered(names) == Filtered(init);
      }
    }
  }

  /**
   * The three controller patterns add nothing: each aggregate name is itself a key
   * of the attribute table, so every name they accept is already accepted by
   * the first branch.
   */
  lemma ControllerPatternsRedundant(name: string)
    ensures IsRelevant(name) <==>
      ContainsKeyOf(name, VariableMapping) || ContainsKeyOf(name, SystemVariableMapping) || IsCustomNameEntry(name)
  {
    forall aggregate | aggregate in AggregateNames && ContainsControllerAggregate(name, aggregate)
      ensures ContainsKeyOf(name, VariableMapping)
    {
      var i: nat :| 1 <= i < 10 && Contains(name, "C" + [DigitChar(i)] + "_" + aggregate);
      ContainsParts("C" + [DigitChar(i)] + "_", aggregate);
      ContainsTransitive(name, "C" + [DigitChar(i)] + "_" + aggregate, aggregate);
      assert aggregate in VariableMapping;
    }
  }

  /** "rh" is a key of the attribute table, so any name containing "rh" is kept. */
  lemma HumidityKeyKeepsEveryRh(name: string)
    requires Contains(name, "rh")
    ensures IsRelevant(name)
  {
    assert "rh" in VariableMapping;
  }

  /** A `cust_Controller<N>_Name` entry is not a custom-name entry for the filter (the test is for "_name"). */
  lemma ControllerNameEntryNotCustomName(n: string)
    ensures !IsCustomNameEntry("cust_Controller" + n + "_Name")
  {
    var s := "cust_Controller" + n + "_Name";
    assert s[|s| - 4] == 'N';
  }

  /** The loop of `_filter_relevant_variables`: append each relevant name in turn. */
  method FilterRelevantVariables(variables: seq<string>) returns (relevant: seq<string>)
    ensures relevant == Filtered(variables)
    ensures forall x :: x in relevant <==> x in variables && IsRelevant(x)
  {
    relevant := [];
    for i := 0 to |variables|
      invariant relevant == Filtered(variables[..i])
    {
      var name := variables[i];
      assert variables[..i + 1][..i] == variables[..i];
      if IsRelevant(name) {
        relevant := relevant + [name];
      }
    }
    assert variables[..|variables|] == variables;
  }
}
