/** The inventory reports over fixture scenarios and runner controls: what ran against a fixed list. */
module FixtureInventory {
  import opened Sequences

  datatype InventoryError =
    | WrongFixedCount | FixedDuplicates | WrongObservedCount | NonStringNames | ObservedDuplicates
    | MissingNames | UnexpectedNames

  /** `[name for name in observed if isinstance(name, str)]`. */
  function StringNames(observed: seq<Option<string>>): seq<string> {
    if observed == [] then []
    else (if observed[0].Some? then [observed[0].value] else []) + StringNames(observed[1..])
  }

  function Duplicates(names: seq<string>): set<string> {
    set n | n in names && multiset(names)[n] > 1
  }

  function Complain(bad: bool, e: InventoryError): seq<InventoryError> {
    if bad then [e] else []
  }

  function InventoryErrors(expected: seq<string>, fixedCount: nat, observed: seq<Option<string>>): seq<InventoryError> {
    var actual := StringNames(observed);
    Complain(|expected| != fixedCount, WrongFixedCount)
    + Complain(Duplicates(expected) != {}, FixedDuplicates)
    + Complain(|observed| != fixedCount, WrongObservedCount)
    + Complain(None in observed, NonStringNames)
    + Complain(Duplicates(actual) != {}, ObservedDuplicates)
    + Complain(Elements(expected) - Elements(actual) != {}, MissingNames)
    + Complain(Elements(actual) - Elements(expected) != {}, UnexpectedNames)
  }

  lemma DuplicatesIff(names: seq<string>)
    ensures Duplicates(names) == {} <==> Distinct(names)
  {
    DistinctCounts(names);
    if !Distinct(names) {
      var n :| multiset(names)[n] > 1;
      assert n in multiset(names);
      assert n in Duplicates(names);
    }
  }

  lemma {:induction false} AllStrings(observed: seq<Option<string>>)
    ensures |StringNames(observed)| <= |observed|
    ensures None !in observed <==> |StringNames(observed)| == |observed|
    ensures None !in observed ==> forall i :: 0 <= i < |observed| ==> observed[i] == Some(StringNames(observed)[i])
  {
    if observed == [] {
    } else {
      var rest := observed[1..];
      AllStrings(rest);
      assert observed == [observed[0]] + rest;
      assert forall i :: 0 < i < |observed| ==> observed[i] == rest[i - 1];
    }
  }

  /**
   The report passes exactly when every observed name is a string and the names are a permutation of
   a fixed list that has the fixed length and no repeats.
   */
  lemma PassesIffPermutation(expected: seq<string>, fixedCount: nat, observed: seq<Option<string>>)
    ensures InventoryErrors(expected, fixedCount, observed) == [] <==>
              && Distinct(expected) && |expected| == fixedCount
              && None !in observed && multiset(StringNames(observed)) == multiset(expected)
  {
    var actual := StringNames(observed);
    AllStrings(observed);
    DuplicatesIff(expected);
    DuplicatesIff(actual);
    DistinctCounts(expected);
    DistinctCounts(actual);
    assert |multiset(actual)| == |actual| && |multiset(expected)| == |expected|;
    assert Elements(expected) - Elements(actual) == {} <==> Elements(expected) <= Elements(actual) by {
      assert Elements(expected) <= Elements(actual) + (Elements(expected) - Elements(actual));
    }
    assert Elements(actual) - Elements(expected) == {} <==> Elements(actual) <= Elements(expected) by {
      assert Elements(actual) <= Elements(expected) + (Elements(actual) - Elements(expected));
    }
    if Distinct(actual) && Distinct(expected) { DistinctSameElements(actual, expected); }
  }

  lemma WrappedIsNames(names: seq<string>, observed: seq<Option<string>>)
    requires |observed| == |names| && forall i :: 0 <= i < |names| ==> observed[i] == Some(names[i])
    ensures StringNames(observed) == names
  {
    AllStrings(observed);
    assert forall i :: 0 <= i < |names| ==> Some(StringNames(observed)[i]) == Some(names[i]);
  }

  /** The same with the names written out: what was observed is the fixed list in some order. */
  lemma NamesPassIff(expected: seq<string>, fixedCount: nat, names: seq<string>, observed: seq<Option<string>>)
    requires |observed| == |names| && forall i :: 0 <= i < |names| ==> observed[i] == Some(names[i])
    ensures InventoryErrors(expected, fixedCount, observed) == [] <==>
            Distinct(expected) && |expected| == fixedCount && multiset(names) == multiset(expected)
  {
    WrappedIsNames(names, observed);
    PassesIffPermutation(expected, fixedCount, observed);
  }
}
