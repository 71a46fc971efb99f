/** Sequences without repetitions, and sequences less one element. */
module Sequences {
  import opened Options

  ghost predicate Distinct<T>(s: seq<T>) {
    forall i, j :: 0 <= i < j < |s| ==> s[i] != s[j]
  }

  lemma WithoutOne<T>(s: seq<T>, i: nat)
    requires i < |s|
    ensures multiset(s[..i] + s[i + 1..]) == multiset(s) - multiset{s[i]}
  {
    assert s == s[..i] + [s[i]] + s[i + 1..];
  }

  /** One more element for either of two parts. */
  lemma OneMorePart<T>(s: seq<T>, a: seq<T>, b: seq<T>, x: T)
    requires multiset(s) == multiset(a) + multiset(b)
    ensures multiset(s + [x]) == multiset(a + [x]) + multiset(b) == multiset(a) + multiset(b + [x])
  {
  }

  lemma {:induction false} OnceEach<T>(s: seq<T>, x: T)
    requires Distinct(s)
    ensures multiset(s)[x] == if x in s then 1 else 0
  {
    if s != [] {
      var (front, last) := (s[..|s| - 1], s[|s| - 1]);
      OnceEach(front, x);
      assert s == front + [last];
      assert last !in front;
    }
  }

  /** Sequences of the same elements, none of them twice, differ in their order only. */
  lemma SameElements<T>(a: seq<T>, b: seq<T>)
    requires Distinct(a) && Distinct(b) && forall x :: x in a <==> x in b
    ensures multiset(a) == multiset(b)
  {
    forall x ensures multiset(a)[x] == multiset(b)[x] {
      OnceEach(a, x);
      OnceEach(b, x);
    }
  }

  function SumOf<T>(s: seq<T>, value: T -> real): real {
    if s == [] then 0.0 else SumOf(s[..|s| - 1], value) + value(s[|s| - 1])
  }

  lemma SumSnoc<T>(s: seq<T>, x: T, value: T -> real)
    ensures SumOf(s + [x], value) == SumOf(s, value) + value(x)
  {
    assert (s + [x])[..|s|] == s;
  }

  lemma {:induction false} SumConcat<T>(a: seq<T>, b: seq<T>, value: T -> real)
    ensures SumOf(a + b, value) == SumOf(a, value) + SumOf(b, value)
    decreases |b|
  {
    hide SumOf;
    if b == [] {
      assert a + b == a && b == [];
      NoSum(value);
    } else {
      var (front, last) := (b[..|b| - 1], b[|b| - 1]);
      assert b == front + [last] && a + b == (a + front) + [last];
      SumConcat(a, front, value);
      SumSnoc(a + front, last, value);
      SumSnoc(front, last, value);
    }
  }

  lemma NoSum<T>(value: T -> real)
    ensures SumOf([], value) == 0.0
  {
  }

  lemma SumWithout<T>(s: seq<T>, i: nat, value: T -> real)
    requires i < |s|
    ensures SumOf(s, value) == SumOf(s[..i] + s[i + 1..], value) + value(s[i])
  {
    hide SumOf;
    var (left, x, right) := (s[..i], s[i], s[i + 1..]);
    SumConcat(left, right, value);
    SumSnoc(left, x, value);
    SumConcat(left + [x], right, value);
    assert s == left + [x] + right;
  }

  /** A sum does not depend on the order. */
  lemma {:induction false} SumPermuted<T>(a: seq<T>, b: seq<T>, value: T -> real)
    requires multiset(a) == multiset(b)
    ensures SumOf(a, value) == SumOf(b, value)
    decreases |a|
  {
    if a == [] {
      assert |multiset(b)| == 0;
    } else {
      hide SumOf;
      var (front, x) := (a[..|a| - 1], a[|a| - 1]);
      assert a == front + [x];
      assert x in multiset(a) && x in b;
      var i :| 0 <= i < |b| && b[i] == x;
      WithoutOne(b, i);
      assert multiset(front) == multiset(a) - multiset{x};
      SumPermuted(front, b[..i] + b[i + 1..], value);
      SumWithout(b, i, value);
      SumSnoc(front, x, value);
    }
  }

  /** The values that are there, in order. */
  function Present<T>(s: seq<Option<T>>): seq<T> {
    if s == [] then []
    else
      var (front, last) := (Present(s[..|s| - 1]), s[|s| - 1]);
      if last.None? then front else front + [last.value]
  }

  /** `values` are those at the ascending positions `at`, and there are no others. */
  ghost predicate ArePresent<T>(s: seq<Option<T>>, values: seq<T>, at: seq<nat>) {
    && |at| == |values| && (forall k, l :: 0 <= k < l < |at| ==> at[k] < at[l])
    && (forall k :: 0 <= k < |at| ==> at[k] < |s| && s[at[k]] == Some(values[k]))
    && forall i: nat :: i < |s| && s[i].Some? ==> i in at
  }

  lemma {:induction false} PresentInOrder<T>(s: seq<Option<T>>) returns (at: seq<nat>)
    ensures ArePresent(s, Present(s), at)
  {
    at := [];
    if s != [] {
      var (front, last) := (s[..|s| - 1], |s| - 1);
      at := PresentInOrder(front);
      hide ArePresent, Present;
      OneMorePresent(front, s[last], Present(front), at);
      assert s == front + [s[last]];
      PresentSnoc(front, s[last]);
      if s[last].Some? { at := at + [last]; }
    }
  }

  lemma PresentSnoc<T>(s: seq<Option<T>>, o: Option<T>)
    ensures Present(s + [o]) == if o.None? then Present(s) else Present(s) + [o.value]
  {
    assert (s + [o])[..|s|] == s;
  }

  lemma OneMorePresent<T>(s: seq<Option<T>>, o: Option<T>, values: seq<T>, at: seq<nat>)
    requires ArePresent(s, values, at)
    ensures if o.None? then ArePresent(s + [o], values, at) else ArePresent(s + [o], values + [o.value], at + [|s|])
  {
    var more := s + [o];
    assert forall i :: 0 <= i < |s| ==> more[i] == s[i];
    if o.Some? {
      var longer := at + [|s|];
      assert longer[|at|] == |s|;
      assert forall i :: i in at ==> i in longer;
    }
  }
}
