/** Facts about finite sequences that several components share. */
module Sequences {

  datatype Option<+T> = None | Some(value: T)

  predicate Distinct<T(==)>(s: seq<T>) {
    forall i, j :: 0 <= i < j < |s| ==> s[i] != s[j]
  }

  function Elements<T>(s: seq<T>): set<T> {
    set x | x in s
  }

  function Flatten<T>(groups: seq<seq<T>>): seq<T> {
    if groups == [] then [] else groups[0] + Flatten(groups[1..])
  }

  lemma ElementsCons<T>(x: T, rest: seq<T>)
    ensures Elements([x] + rest) == {x} + Elements(rest)
  {
  }

  lemma DistinctCons<T>(x: T, rest: seq<T>)
    ensures Distinct([x] + rest) <==> x !in rest && Distinct(rest)
  {
    var s := [x] + rest;
    assert forall k :: 0 <= k < |rest| ==> s[k + 1] == rest[k];
    if Distinct(s) {
      forall k | 0 <= k < |rest| ensures rest[k] != x { assert s[0] != s[k + 1]; }
      forall i, j | 0 <= i < j < |rest| ensures rest[i] != rest[j] { assert s[i + 1] != s[j + 1]; }
    }
  }

  /** Counting distinct values, as `len(set(xs)) == len(xs)` does. */
  lemma {:induction false} CardinalityDetectsRepeats<T>(s: seq<T>)
    ensures |Elements(s)| <= |s|
    ensures |Elements(s)| == |s| <==> Distinct(s)
  {
    if s == [] {
    } else {
      var x, rest := s[0], s[1..];
      assert s == [x] + rest;
      CardinalityDetectsRepeats(rest);
      ElementsCons(x, rest);
      DistinctCons(x, rest);
      if x in rest { assert {x} + Elements(rest) == Elements(rest); }
    }
  }

  lemma {:induction false} SubsetCardinality<T>(a: set<T>, b: set<T>)
    requires a <= b
    ensures |a| <= |b|
    ensures |a| == |b| ==> a == b
  {
    assert b == a + (b - a);
    if b - a == {} {
      assert a == b;
    } else {
      assert |b| == |a| + |b - a|;
    }
  }

  /** A sequence drawn from a set it outgrows must repeat a value. */
  lemma Pigeonhole<T>(s: seq<T>, pool: set<T>) returns (i: nat, j: nat)
    requires Elements(s) <= pool && |s| > |pool|
    ensures i < j < |s| && s[i] == s[j]
  {
    SubsetCardinality(Elements(s), pool);
    CardinalityDetectsRepeats(s);
    i, j :| 0 <= i < j < |s| && s[i] == s[j];
  }

  lemma ConcatAssociative<T>(a: seq<T>, b: seq<T>, c: seq<T>)
    ensures (a + b) + c == a + (b + c)
  {
  }

  lemma {:induction false} FlattenAppend<T>(a: seq<seq<T>>, b: seq<seq<T>>)
    ensures Flatten(a + b) == Flatten(a) + Flatten(b)
  {
    if a == [] {
      assert a + b == b;
    } else {
      FlattenAppend(a[1..], b);
      assert (a + b)[1..] == a[1..] + b;
      ConcatAssociative(a[0], Flatten(a[1..]), Flatten(b));
    }
  }

  lemma {:induction false} FlattenContains<T>(groups: seq<seq<T>>, x: T)
    ensures x in Flatten(groups) <==> exists k :: 0 <= k < |groups| && x in groups[k]
  {
    if groups == [] {
    } else {
      FlattenContains(groups[1..], x);
      if k :| 0 <= k < |groups| && x in groups[k] && k > 0 {
        assert x in groups[1..][k - 1];
      }
      if k :| 0 <= k < |groups[1..]| && x in groups[1..][k] {
        assert x in groups[k + 1];
      }
    }
  }

  lemma DistinctConcat<T>(a: seq<T>, b: seq<T>)
    ensures Distinct(a + b) <==> Distinct(a) && Distinct(b) && forall x :: x in a ==> x !in b
  {
    var c := a + b;
    if Distinct(c) {
      forall i, j | 0 <= i < j < |a| ensures a[i] != a[j] {
        assert c[i] != c[j];
      }
      forall i, j | 0 <= i < j < |b| ensures b[i] != b[j] {
        assert c[|a| + i] != c[|a| + j];
      }
      forall x | x in a ensures x !in b {
        var i :| 0 <= i < |a| && a[i] == x;
        assert forall j :: 0 <= j < |b| ==> b[j] == c[|a| + j] && c[i] != c[|a| + j];
      }
    } else {
      var i, j :| 0 <= i < j < |c| && c[i] == c[j];
      if i < |a| <= j {
        assert a[i] in b by { assert b[j - |a|] == a[i]; }
      } else if j >= |a| {
        assert b[i - |a|] == b[j - |a|];
      }
    }
  }

  /** The flattening repeats nothing exactly when no group does and no two groups share a value. */
  lemma {:induction false} FlattenDistinct<T>(groups: seq<seq<T>>)
    ensures Distinct(Flatten(groups)) <==>
              && (forall k :: 0 <= k < |groups| ==> Distinct(groups[k]))
              && (forall k, l, x :: 0 <= k < l < |groups| && x in groups[k] ==> x !in groups[l])
  {
    if groups == [] {
    } else {
      var head, tail := groups[0], groups[1..];
      var rest := Flatten(tail);
      FlattenDistinct(tail);
      DistinctConcat(head, rest);
      forall x ensures x in rest <==> exists k :: 0 <= k < |tail| && x in tail[k] {
        FlattenContains(tail, x);
      }
      assert forall k :: 0 < k < |groups| ==> groups[k] == tail[k - 1];
      if Distinct(Flatten(groups)) {
        forall k, l, x | 0 <= k < l < |groups| && x in groups[k] ensures x !in groups[l] {
          assert groups[l] == tail[l - 1];
          if k > 0 { assert x in tail[k - 1]; }
        }
      }
    }
  }

  lemma {:induction false} DistinctCounts<T>(s: seq<T>)
    ensures Distinct(s) <==> forall x :: multiset(s)[x] <= 1
  {
    if s == [] {
    } else {
      var rest := s[1..];
      DistinctCounts(rest);
      assert s == [s[0]] + rest;
      assert multiset(s) == multiset{s[0]} + multiset(rest);
      DistinctConcat([s[0]], rest);
      if !Distinct(s) && Distinct(rest) {
        assert multiset(s)[s[0]] >= 2;
      } else if !Distinct(s) {
        var x :| multiset(rest)[x] > 1;
        assert multiset(s)[x] > 1;
      }
    }
  }

  /** Two sequences without repeats hold the same values exactly when one permutes the other. */
  lemma DistinctSameElements<T>(a: seq<T>, b: seq<T>)
    requires Distinct(a) && Distinct(b)
    ensures multiset(a) == multiset(b) <==> Elements(a) == Elements(b)
  {
    DistinctCounts(a);
    DistinctCounts(b);
    assert forall x :: x in Elements(a) <==> x in multiset(a);
    assert forall x :: x in Elements(b) <==> x in multiset(b);
    if Elements(a) == Elements(b) {
      forall x ensures multiset(a)[x] == multiset(b)[x] {
        assert x in multiset(a) <==> x in multiset(b);
      }
    }
  }

  /** One occurrence taken out: it can be put first or last. */
  lemma MoveOut<T>(s: seq<T>, x: T) returns (rest: seq<T>)
    requires x in s
    ensures multiset([x] + rest) == multiset(s) && multiset(rest + [x]) == multiset(s)
    ensures forall y :: y in s <==> y == x || y in rest
  {
    var i :| 0 <= i < |s| && s[i] == x;
    var front, back := s[..i], s[i + 1..];
    rest := front + back;
    assert s == front + [x] + back;
    assert multiset(s) == multiset(front) + multiset{x} + multiset(back);
  }

  /** Two different values taken out: they can be put last in either order. */
  lemma MoveOutTwo<T>(s: seq<T>, x: T, y: T) returns (rest: seq<T>)
    requires x in s && y in s && x != y
    ensures multiset((rest + [x]) + [y]) == multiset(s) && multiset((rest + [y]) + [x]) == multiset(s)
    ensures forall z :: z in rest ==> z in s
  {
    var most := MoveOut(s, y);
    rest := MoveOut(most, x);
    assert multiset(most) == multiset(rest) + multiset{x};
    assert multiset(s) == multiset(most) + multiset{y};
  }
}
