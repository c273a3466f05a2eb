/** Sorted, duplicate-free sequences of strings: the model of a sorted string
    set (a tree set) and of iterating over it in ascending order. */
module SortedKeys {
  import opened Text

  predicate StrictlySorted(xs: seq<string>) {
    forall i, j :: 0 <= i < j < |xs| ==> Less(xs[i], xs[j])
  }

  function Elems(xs: seq<string>): set<string> {
    set x | x in xs
  }

  /** A string below the head of a sorted sequence is below all of it. */
  lemma BelowHead(x: string, xs: seq<string>)
    requires StrictlySorted(xs) && |xs| > 0 && Less(x, xs[0])
    ensures forall j :: 0 <= j < |xs| ==> Less(x, xs[j])
  {
    forall j | 0 < j < |xs|
      ensures Less(x, xs[j])
    {
      LessTransitive(x, xs[0], xs[j]);
    }
  }

  /** The keys of a sequence with a key in front. */
  lemma ElemsCons(x: string, xs: seq<string>)
    ensures Elems([x] + xs) == {x} + Elems(xs)
  {
    assert forall y :: y in [x] + xs <==> y == x || y in xs;
  }

  /** A key below every key of a sorted sequence can go in front of it. */
  lemma ConsSorted(x: string, xs: seq<string>)
    requires StrictlySorted(xs)
    requires forall j :: 0 <= j < |xs| ==> Less(x, xs[j])
    ensures StrictlySorted([x] + xs)
  {
    forall i, j | 0 <= i < j < |[x] + xs|
      ensures Less(([x] + xs)[i], ([x] + xs)[j])
    {
      if i > 0 {
        assert ([x] + xs)[i] == xs[i - 1];
      }
      assert ([x] + xs)[j] == xs[j - 1];
    }
  }

  /** The head of a sorted sequence is below every key of a sequence holding
      its tail's keys and one key above the head. */
  lemma AboveHead(xs: seq<string>, x: string, rest: seq<string>)
    requires StrictlySorted(xs) && |xs| > 0 && Less(xs[0], x)
    requires Elems(rest) == Elems(xs[1..]) + {x}
    ensures forall j :: 0 <= j < |rest| ==> Less(xs[0], rest[j])
  {
    forall j | 0 <= j < |rest|
      ensures Less(xs[0], rest[j])
    {
      assert rest[j] in Elems(rest);
      if rest[j] != x {
        var k :| 0 <= k < |xs[1..]| && xs[1..][k] == rest[j];
        assert xs[k + 1] == rest[j];
      }
    }
  }

  /** Adding a key to the sorted set: the result is still sorted and holds
      exactly the old keys plus the new one (adding a present key changes
      nothing). */
  function Insert(xs: seq<string>, x: string): (r: seq<string>)
    requires StrictlySorted(xs)
    ensures StrictlySorted(r)
    ensures Elems(r) == Elems(xs) + {x}
    ensures x in xs ==> r == xs
  {
    if |xs| == 0 then [x]
    else if x == xs[0] then xs
    else if Less(x, xs[0]) then
      BelowHead(x, xs);
      LessIrreflexive(x);
      ConsSorted(x, xs);
      ElemsCons(x, xs);
      [x] + xs
    else
      assert xs == [xs[0]] + xs[1..];
      ElemsCons(xs[0], xs[1..]);
      LessTotal(x, xs[0]);
      var rest := Insert(xs[1..], x);
      AboveHead(xs, x, rest);
      ConsSorted(xs[0], rest);
      ElemsCons(xs[0], rest);
      [xs[0]] + rest
  }

  /** A sorted sequence has no repeats, so it is as long as its set of keys. */
  lemma {:induction false} SortedDistinct(xs: seq<string>)
    requires StrictlySorted(xs)
    ensures |Elems(xs)| == |xs|
    decreases |xs|
  {
    if |xs| > 0 {
      SortedDistinct(xs[1..]);
      assert xs == [xs[0]] + xs[1..];
      assert Elems(xs) == {xs[0]} + Elems(xs[1..]);
      if xs[0] in xs[1..] {
        var j :| 0 <= j < |xs[1..]| && xs[1..][j] == xs[0];
        assert Less(xs[0], xs[j + 1]);
        LessIrreflexive(xs[0]);
      }
      assert xs[0] !in Elems(xs[1..]);
    }
  }

  /** A set of keys has only one ascending order: two sorted sequences with
      the same keys are the same sequence. */
  lemma {:induction false} SortedUnique(a: seq<string>, b: seq<string>)
    requires StrictlySorted(a) && StrictlySorted(b)
    requires Elems(a) == Elems(b)
    ensures a == b
    decreases |a|
  {
    SortedDistinct(a);
    SortedDistinct(b);
    if |a| > 0 {
      assert a[0] in Elems(b);
      assert |b| > 0;
      assert b[0] in Elems(a);
      HeadIsLeast(a, b[0]);
      HeadIsLeast(b, a[0]);
      assert a[0] == b[0] by {
        if a[0] != b[0] {
          LessAsymmetric(a[0], b[0]);
        }
      }
      TailElems(a);
      TailElems(b);
      SortedUnique(a[1..], b[1..]);
      assert a == [a[0]] + a[1..];
      assert b == [b[0]] + b[1..];
    }
  }

  /** The head of a sorted sequence is below every other key in it. */
  lemma HeadIsLeast(xs: seq<string>, y: string)
    requires StrictlySorted(xs) && y in xs
    ensures y == xs[0] || Less(xs[0], y)
  {
  }

  /** The tail of a sorted sequence holds every key but the head. */
  lemma TailElems(xs: seq<string>)
    requires StrictlySorted(xs) && |xs| > 0
    ensures Elems(xs[1..]) == Elems(xs) - {xs[0]}
  {
    assert xs == [xs[0]] + xs[1..];
    if xs[0] in xs[1..] {
      var j :| 0 <= j < |xs[1..]| && xs[1..][j] == xs[0];
      assert Less(xs[0], xs[j + 1]);
      LessIrreflexive(xs[0]);
    }
  }
}
