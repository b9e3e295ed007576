/** A JavaScript `Set`, as the handler uses it: a collection that holds each
    value once and iterates in order of first insertion. It is represented by
    the sequence of its elements in that order. */
module OrderedSet {

  ghost predicate Distinct<T>(s: seq<T>) {
    forall i, j :: 0 <= i < j < |s| ==> s[i] != s[j]
  }

  /** Position of the first occurrence of `x` in `s`. */
  function IndexOf<T(==)>(s: seq<T>, x: T): (k: nat)
    requires x in s
    ensures k < |s| && s[k] == x
    ensures forall i :: 0 <= i < k ==> s[i] != x
  {
    if s[0] == x then 0 else 1 + IndexOf(s[1..], x)
  }

  /** `set.add(x)`: a new value goes to the end, a value already present
      changes nothing, and the existing elements keep their order. */
  function Add<T(==)>(s: seq<T>, x: T): (r: seq<T>)
    ensures x in s ==> r == s
    ensures x !in s ==> r == s + [x]
    ensures x in r && forall i :: 0 <= i < |r| ==> r[i] in s || r[i] == x
    ensures |s| <= |r| && r[..|s|] == s
    ensures Distinct(s) ==> Distinct(r)
  {
    if x in s then s else s + [x]
  }

  /** The set obtained by adding the elements of `s` one after another. */
  function Dedup<T(==)>(s: seq<T>): seq<T> {
    if s == [] then [] else Add(Dedup(s[..|s| - 1]), s[|s| - 1])
  }

  /** The set holds each value at most once. */
  lemma {:induction false} DedupDistinct<T>(s: seq<T>)
    ensures Distinct(Dedup(s))
  {
    if s != [] {
      DedupDistinct(s[..|s| - 1]);
    }
  }

  /** The set holds exactly the values added to it. */
  lemma {:induction false} DedupElements<T>(s: seq<T>)
    ensures forall x :: x in Dedup(s) <==> x in s
  {
    if s != [] {
      DedupElements(s[..|s| - 1]);
      assert s == s[..|s| - 1] + [s[|s| - 1]];
    }
  }

  /** A value present before the last position first occurs where it did
      in the sequence without its last element. */
  lemma {:induction false} IndexOfPrefix<T>(s: seq<T>, init: seq<T>, x: T)
    requires s != [] && init == s[..|s| - 1] && x in init
    ensures IndexOf(s, x) == IndexOf(init, x)
  {
    if s[0] != x {
      IndexOfPrefix(s[1..], init[1..], x);
    }
  }

  /** A last element that does not occur earlier first occurs at the end. */
  lemma {:induction false} IndexOfLast<T>(s: seq<T>, init: seq<T>)
    requires s != [] && init == s[..|s| - 1] && s[|s| - 1] !in init
    ensures IndexOf(s, s[|s| - 1]) == |init|
  {
    if init != [] {
      IndexOfLast(s[1..], init[1..]);
    }
  }

  /** The set iterates in order of first occurrence in the added sequence. */
  lemma {:induction false} DedupFirstOccurrenceOrder<T>(s: seq<T>)
    ensures forall x :: x in Dedup(s) ==> x in s
    ensures forall i, j :: 0 <= i < j < |Dedup(s)| ==>
              IndexOf(s, Dedup(s)[i]) < IndexOf(s, Dedup(s)[j])
  {
    DedupElements(s);
    if s != [] {
      var init := s[..|s| - 1];
      DedupFirstOccurrenceOrder(init);
      forall i, j | 0 <= i < j < |Dedup(s)|
        ensures IndexOf(s, Dedup(s)[i]) < IndexOf(s, Dedup(s)[j])
      {
        DedupOrderStep(s, init, i, j);
      }
    }
  }

  /** One step of the induction above: adding the last element keeps the
      order of the earlier ones and puts the last, if new, after all of them. */
  lemma DedupOrderStep<T>(s: seq<T>, init: seq<T>, i: nat, j: nat)
    requires s != [] && init == s[..|s| - 1]
    requires forall x :: x in Dedup(init) ==> x in init
    requires forall i, j :: 0 <= i < j < |Dedup(init)| ==>
               IndexOf(init, Dedup(init)[i]) < IndexOf(init, Dedup(init)[j])
    requires i < j < |Dedup(s)|
    ensures Dedup(s)[i] in s && Dedup(s)[j] in s
    ensures IndexOf(s, Dedup(s)[i]) < IndexOf(s, Dedup(s)[j])
  {
    var d, y := Dedup(init), s[|s| - 1];
    assert Dedup(s) == Add(d, y);
    assert forall x :: x in init ==> x in s;
    assert Dedup(s)[i] == d[i];
    IndexOfPrefix(s, init, d[i]);
    if j < |d| {
      assert Dedup(s)[j] == d[j];
      IndexOfPrefix(s, init, d[j]);
    } else {
      assert Dedup(s)[j] == y && y !in d;
      DedupElements(init);
      IndexOfLast(s, init);
    }
  }

  /** Adding values that are all different keeps them all, in order. */
  lemma {:induction false} DedupOfDistinct<T>(s: seq<T>)
    requires Distinct(s)
    ensures Dedup(s) == s
  {
    if s != [] {
      var init := s[..|s| - 1];
      DedupOfDistinct(init);
      assert s[|s| - 1] !in init;
      assert s == init + [s[|s| - 1]];
    }
  }

  /** Building the set is idempotent. */
  lemma DedupIdempotent<T>(s: seq<T>)
    ensures Dedup(Dedup(s)) == Dedup(s)
  {
    DedupDistinct(s);
    DedupOfDistinct(Dedup(s));
  }
}
