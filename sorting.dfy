/** The two sorts of the characteristics handler: `valuesArray.sort(cmp)` with
    the VESA size comparator, and `valuesArray.sort()` with the default
    code-unit order. `Array.prototype.sort` is stable, so either call leaves
    the array in the one order that is sorted and keeps the values the
    comparator ties in their original order; `StableSort` computes that order
    by insertion, and `SortInPlace` does the same on the array.

    A comparator is represented by `le(x, y)`, "`x` may stand before `y`",
    which holds when the comparator does not return a positive number. */
module Sorting {
  import Text
  import Vesa

  /** A comparator that orders any two values consistently. */
  ghost predicate TotalPreorder<T(!new)>(le: (T, T) -> bool) {
    && (forall x, y :: le(x, y) || le(y, x))
    && (forall x, y, z :: le(x, y) && le(y, z) ==> le(x, z))
  }

  /** The comparator returns 0: neither value has to move past the other. */
  predicate Tied<T>(le: (T, T) -> bool, x: T, y: T) {
    le(x, y) && le(y, x)
  }

  ghost predicate Sorted<T>(le: (T, T) -> bool, s: seq<T>) {
    forall i, j :: 0 <= i < j < |s| ==> le(s[i], s[j])
  }

  /** `x` inserted into `s` after every element it does not have to precede,
      scanning from the right: a later value goes after the values it ties with. */
  function Insert<T>(le: (T, T) -> bool, s: seq<T>, x: T): seq<T> {
    if s == [] || le(s[|s| - 1], x) then s + [x]
    else Insert(le, s[..|s| - 1], x) + [s[|s| - 1]]
  }

  /** The array order after a stable sort: each value inserted in turn. */
  function StableSort<T>(le: (T, T) -> bool, s: seq<T>): seq<T> {
    if s == [] then [] else Insert(le, StableSort(le, s[..|s| - 1]), s[|s| - 1])
  }

  /** The values of `s` tied with `y`, in order. */
  ghost function TiedWith<T>(le: (T, T) -> bool, s: seq<T>, y: T): seq<T> {
    if s == [] then []
    else TiedWith(le, s[..|s| - 1], y) + (if Tied(le, s[|s| - 1], y) then [s[|s| - 1]] else [])
  }

  // ---------------------------------------------------------------------
  // Properties of Insert

  lemma {:induction false} InsertPermutation<T>(le: (T, T) -> bool, s: seq<T>, x: T)
    ensures multiset(Insert(le, s, x)) == multiset(s) + multiset{x}
  {
    if s != [] && !le(s[|s| - 1], x) {
      InsertPermutation(le, s[..|s| - 1], x);
      assert s == s[..|s| - 1] + [s[|s| - 1]];
    }
  }

  /** A sorted sequence stays sorted when a value no smaller than each of
      its elements is appended. */
  lemma SortedAppend<T>(le: (T, T) -> bool, s: seq<T>, y: T)
    requires Sorted(le, s)
    requires forall i :: 0 <= i < |s| ==> le(s[i], y)
    ensures Sorted(le, s + [y])
  {
  }

  /** Inserting a value below `y` into values below `y` keeps them below `y`. */
  lemma {:induction false} InsertBelow<T>(le: (T, T) -> bool, s: seq<T>, x: T, y: T)
    requires forall i :: 0 <= i < |s| ==> le(s[i], y)
    requires le(x, y)
    ensures forall i :: 0 <= i < |Insert(le, s, x)| ==> le(Insert(le, s, x)[i], y)
  {
    if s != [] && !le(s[|s| - 1], x) {
      InsertBelow(le, s[..|s| - 1], x, y);
    }
  }

  lemma {:induction false} InsertSorted<T(!new)>(le: (T, T) -> bool, s: seq<T>, x: T)
    requires TotalPreorder(le)
    requires Sorted(le, s)
    ensures Sorted(le, Insert(le, s, x))
  {
    var n := |s|;
    if s == [] {
    } else if le(s[n - 1], x) {
      assert forall i :: 0 <= i < n ==> le(s[i], x) by {
        forall i | 0 <= i < n ensures le(s[i], x) {
          if i < n - 1 {
            assert le(s[i], s[n - 1]);
          }
        }
      }
      SortedAppend(le, s, x);
    } else {
      var init, last := s[..n - 1], s[n - 1];
      InsertSorted(le, init, x);
      assert forall i :: 0 <= i < |init| ==> le(init[i], last) by {
        forall i | 0 <= i < |init| ensures le(init[i], last) {
          assert le(s[i], s[n - 1]);
        }
      }
      InsertBelow(le, init, x, last);
      SortedAppend(le, Insert(le, init, x), last);
    }
  }

  /** Insertion keeps the relative order of tied values and puts `x` after
      the ones it ties with. */
  lemma {:induction false} InsertTiedWith<T(!new)>(le: (T, T) -> bool, s: seq<T>, x: T, y: T)
    requires TotalPreorder(le)
    ensures TiedWith(le, Insert(le, s, x), y)
         == TiedWith(le, s, y) + (if Tied(le, x, y) then [x] else [])
  {
    var n := |s|;
    if s == [] || le(s[n - 1], x) {
      assert (s + [x])[..|s + [x]| - 1] == s;
    } else {
      var init, last := s[..n - 1], s[n - 1];
      var t := Insert(le, init, x);
      InsertTiedWith(le, init, x, y);
      var before := TiedWith(le, init, y);
      var xs := if Tied(le, x, y) then [x] else [];
      var lasts := if Tied(le, last, y) then [last] else [];
      assert (t + [last])[..|t + [last]| - 1] == t;
      assert TiedWith(le, Insert(le, s, x), y) == before + xs + lasts;
      assert TiedWith(le, s, y) == before + lasts;
      assert xs == [] || lasts == [] by {
        assert le(last, y) && le(y, x) ==> le(last, x);
      }
    }
  }


  /** Where the insertion point is known, insertion puts `x` there. */
  lemma {:induction false} InsertAt<T>(le: (T, T) -> bool, s: seq<T>, x: T, j: nat)
    requires j <= |s|
    requires j == 0 || le(s[j - 1], x)
    requires forall k :: j <= k < |s| ==> !le(s[k], x)
    ensures Insert(le, s, x) == s[..j] + [x] + s[j..]
  {
    if j < |s| {
      var init := s[..|s| - 1];
      InsertAt(le, init, x, j);
      assert init[..j] == s[..j];
      assert init[j..] + [s[|s| - 1]] == s[j..];
    }
  }

  // ---------------------------------------------------------------------
  // Properties of StableSort

  /** The sorted values are the input values, each as often as before. */
  lemma {:induction false} StableSortPermutation<T>(le: (T, T) -> bool, s: seq<T>)
    ensures multiset(StableSort(le, s)) == multiset(s)
  {
    if s != [] {
      StableSortPermutation(le, s[..|s| - 1]);
      InsertPermutation(le, StableSort(le, s[..|s| - 1]), s[|s| - 1]);
      assert s == s[..|s| - 1] + [s[|s| - 1]];
    }
  }

  /** The sorted values ascend under the comparator. */
  lemma {:induction false} StableSortSorted<T(!new)>(le: (T, T) -> bool, s: seq<T>)
    requires TotalPreorder(le)
    ensures Sorted(le, StableSort(le, s))
  {
    if s != [] {
      StableSortSorted(le, s[..|s| - 1]);
      InsertSorted(le, StableSort(le, s[..|s| - 1]), s[|s| - 1]);
    }
  }

  /** Values the comparator ties keep their input order. */
  lemma {:induction false} StableSortStable<T(!new)>(le: (T, T) -> bool, s: seq<T>, y: T)
    requires TotalPreorder(le)
    ensures TiedWith(le, StableSort(le, s), y) == TiedWith(le, s, y)
  {
    if s != [] {
      StableSortStable(le, s[..|s| - 1], y);
      InsertTiedWith(le, StableSort(le, s[..|s| - 1]), s[|s| - 1], y);
    }
  }

  // ---------------------------------------------------------------------
  // The sort on the array

  /** One insertion step: the value at index `i` moves left past the values
      it does not have to follow, which shift one place right. */
  method InsertLast<T>(a: array<T>, i: nat, le: (T, T) -> bool)
    requires i < a.Length
    modifies a
    ensures a[..i + 1] == Insert(le, old(a[..i]), old(a[i]))
    ensures a[i + 1..] == old(a[i + 1..])
  {
    ghost var sorted := a[..i];
    var x := a[i];
    var j := i;
    while j > 0 && !le(a[j - 1], x)
      invariant 0 <= j <= i
      invariant forall k :: 0 <= k < j ==> a[k] == sorted[k]
      invariant forall k :: j < k <= i ==> a[k] == sorted[k - 1]
      invariant forall k :: i < k < a.Length ==> a[k] == old(a[k])
      invariant forall k :: j <= k < i ==> !le(sorted[k], x)
    {
      a[j] := a[j - 1];
      j := j - 1;
    }
    a[j] := x;
    InsertAt(le, sorted, x, j);
    Spliced(sorted, x, j, a[..i + 1]);
  }

  /** A sequence that holds `s` with `x` placed at index `j`. */
  lemma Spliced<T>(s: seq<T>, x: T, j: nat, t: seq<T>)
    requires j <= |s| && |t| == |s| + 1
    requires forall k :: 0 <= k < j ==> t[k] == s[k]
    requires t[j] == x
    requires forall k :: j < k < |t| ==> t[k] == s[k - 1]
    ensures t == s[..j] + [x] + s[j..]
  {
  }

  /** `valuesArray.sort(...)`: rearranges the array into the stable sorted order. */
  method SortInPlace<T>(a: array<T>, le: (T, T) -> bool)
    modifies a
    ensures a[..] == StableSort(le, old(a[..]))
  {
    ghost var input := a[..];
    var i := 0;
    while i < a.Length
      invariant 0 <= i <= a.Length
      invariant a[..i] == StableSort(le, input[..i])
      invariant a[i..] == input[i..]
    {
      assert a[i] == input[i] && a[i + 1..] == input[i + 1..];
      InsertLast(a, i, le);
      assert input[..i + 1][..i] == input[..i];
      i := i + 1;
    }
    assert input[..a.Length] == input;
  }

  // ---------------------------------------------------------------------
  // The handler's two comparators

  /** The comparator of `valuesArray.sort(...)`: the VESA size comparator
      (width, then height) for a VESA specification, otherwise the default
      comparison by UTF-16 code units, with no locale rules. */
  function Comparator(vesa: bool): (string, string) -> bool {
    if vesa then (x: string, y: string) => Vesa.SizeLe(Vesa.SizeOf(x), Vesa.SizeOf(y))
    else (x: string, y: string) => Text.CodeUnitLe(x, y)
  }

  /** Both comparators order every pair of values consistently. */
  lemma ComparatorTotalPreorder(vesa: bool)
    ensures TotalPreorder(Comparator(vesa))
  {
    var le := Comparator(vesa);
    forall x, y
      ensures le(x, y) || le(y, x)
    {
      if !vesa {
        Text.CodeUnitLeTotal(x, y);
      }
    }
    forall x, y, z | le(x, y) && le(y, z)
      ensures le(x, z)
    {
      if vesa {
        Vesa.SizeLeTransitive(Vesa.SizeOf(x), Vesa.SizeOf(y), Vesa.SizeOf(z));
      } else {
        Text.CodeUnitLeTransitive(x, y, z);
      }
    }
  }

  /** A value that occurs twice is counted twice. */
  lemma CountRepeated<T>(r: seq<T>, i: nat, j: nat)
    requires i < j < |r| && r[i] == r[j]
    ensures multiset(r)[r[i]] >= 2
  {
    assert r == r[..j] + [r[j]] + r[j + 1..];
    assert r[i] in multiset(r[..j]);
  }

  /** In a sequence of different values each value is counted once. */
  lemma {:induction false} CountDistinct<T>(s: seq<T>, x: T)
    requires forall i, j :: 0 <= i < j < |s| ==> s[i] != s[j]
    requires x in s
    ensures multiset(s)[x] == 1
  {
    assert s == [s[0]] + s[1..];
    if s[0] == x {
      assert x !in s[1..];
    } else {
      CountDistinct(s[1..], x);
    }
  }

  /** A rearrangement of different values holds different values. */
  lemma PermutationDistinct<T>(s: seq<T>, r: seq<T>)
    requires forall i, j :: 0 <= i < j < |s| ==> s[i] != s[j]
    requires multiset(r) == multiset(s)
    ensures forall i, j :: 0 <= i < j < |r| ==> r[i] != r[j]
  {
    forall i, j | 0 <= i < j < |r|
      ensures r[i] != r[j]
    {
      if r[i] == r[j] {
        CountRepeated(r, i, j);
        assert r[i] in multiset(s);
        CountDistinct(s, r[i]);
        assert false;
      }
    }
  }

  /** Under the default order, values that are all different come out
      strictly ascending by code units. */
  lemma DefaultSortStrict(s: seq<string>)
    requires forall i, j :: 0 <= i < j < |s| ==> s[i] != s[j]
    ensures forall i, j :: 0 <= i < j < |StableSort(Comparator(false), s)| ==>
              Text.CodeUnitLe(StableSort(Comparator(false), s)[i], StableSort(Comparator(false), s)[j]) &&
              StableSort(Comparator(false), s)[i] != StableSort(Comparator(false), s)[j]
  {
    var le := Comparator(false);
    var r := StableSort(le, s);
    ComparatorTotalPreorder(false);
    StableSortSorted(le, s);
    StableSortPermutation(le, s);
    PermutationDistinct(s, r);
    forall i, j | 0 <= i < j < |r|
      ensures Text.CodeUnitLe(r[i], r[j])
    {
      assert le(r[i], r[j]);
    }
  }
}
