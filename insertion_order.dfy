/**
 * Insertion-ordered collections without repeated additions: a JavaScript
 * `Set` filled with `add` (iteration follows first insertion), and a stored
 * array extended with Firestore's `arrayUnion`, which appends each given
 * element that the array does not already hold. Both are "append when
 * absent", so both are modelled by the functions below.
 */
module InsertionOrder {

  /** No element occurs twice. */
  predicate NoDuplicates<T(==)>(s: seq<T>) {
    forall i, j :: 0 <= i < j < |s| ==> s[i] != s[j]
  }

  /** Set.prototype.add, or arrayUnion with a single element. */
  function Add<T(==)>(s: seq<T>, x: T): seq<T> {
    if x in s then s else s + [x]
  }

  /** Adds the elements of xs one after the other, left to right. */
  function AppendAll<T(==,!new)>(s: seq<T>, xs: seq<T>): (r: seq<T>)
    ensures |s| <= |r| && r[..|s|] == s
    ensures forall x :: x in r <==> x in s || x in xs
    ensures forall k :: |s| <= k < |r| ==> r[k] !in s
    ensures NoDuplicates(r[|s|..])
    ensures NoDuplicates(s) ==> NoDuplicates(r)
    decreases |xs|
  {
    if xs == [] then
      assert s[|s|..] == [];
      s
    else
      var prev := AppendAll(s, xs[..|xs| - 1]);
      var x := xs[|xs| - 1];
      assert xs == xs[..|xs| - 1] + [x];
      var r := Add(prev, x);
      assert r[..|prev|] == prev;
      assert r[|s|..] == if x in prev then prev[|s|..] else prev[|s|..] + [x];
      r
  }

  /** The position of the first occurrence of x in xs. */
  function FirstIndex<T(==)>(xs: seq<T>, x: T): (n: nat)
    requires x in xs
    ensures n < |xs| && xs[n] == x && x !in xs[..n]
  {
    if xs[0] == x then
      0
    else
      var m := FirstIndex(xs[1..], x);
      assert xs[..1 + m] == [xs[0]] + xs[1..][..m];
      1 + m
  }

  /** Adding a batch in two steps is adding it in one. */
  lemma {:induction false} AppendAllConcat<T(!new)>(s: seq<T>, a: seq<T>, b: seq<T>)
    ensures AppendAll(s, a + b) == AppendAll(AppendAll(s, a), b)
    decreases |b|
  {
    if b == [] {
      assert a + b == a;
    } else {
      var init := b[..|b| - 1];
      assert (a + b)[..|a + b| - 1] == a + init;
      assert (a + b)[|a + b| - 1] == b[|b| - 1];
      AppendAllConcat(s, a, init);
    }
  }

  /** Adding elements that are all present already changes nothing. */
  lemma {:induction false} AppendAllPresent<T(!new)>(t: seq<T>, xs: seq<T>)
    requires forall x :: x in xs ==> x in t
    ensures AppendAll(t, xs) == t
    decreases |xs|
  {
    if xs != [] {
      var init := xs[..|xs| - 1];
      assert forall x :: x in init ==> x in xs;
      AppendAllPresent(t, init);
      assert xs[|xs| - 1] in xs;
    }
  }

  /** Applying the same batch a second time leaves the result of the first. */
  lemma AppendAllIdempotent<T(!new)>(s: seq<T>, xs: seq<T>)
    ensures AppendAll(AppendAll(s, xs), xs) == AppendAll(s, xs)
  {
    AppendAllPresent(AppendAll(s, xs), xs);
  }

  /** Every element of d occurs in xs, and d lists them in the order of their
      first occurrence in xs. */
  ghost predicate InFirstSeenOrder<T>(d: seq<T>, xs: seq<T>) {
    && (forall y :: y in d ==> y in xs)
    && (forall i, j :: 0 <= i < j < |d| ==> FirstIndex(xs, d[i]) < FirstIndex(xs, d[j]))
  }

  /** Starting from nothing, the elements come out in the order of their first
      occurrence in the input. */
  lemma {:induction false} AppendAllFirstSeenOrder<T(!new)>(xs: seq<T>)
    ensures InFirstSeenOrder(AppendAll([], xs), xs)
    decreases |xs|
  {
    if xs != [] {
      var init := xs[..|xs| - 1];
      var x := xs[|xs| - 1];
      var prev := AppendAll([], init);
      AppendAllFirstSeenOrder(init);
      assert xs == init + [x];
      if x in prev {
        OrderExtend(prev, init, x);
      } else {
        OrderAppendNew(prev, init, x);
      }
    }
  }

  lemma OrderExtend<T>(d: seq<T>, xs: seq<T>, x: T)
    requires InFirstSeenOrder(d, xs)
    ensures InFirstSeenOrder(d, xs + [x])
  {
    forall y | y in xs
      ensures FirstIndex(xs + [x], y) == FirstIndex(xs, y)
    {
      FirstIndexExtend(xs, x, y);
    }
  }

  lemma OrderAppendNew<T>(d: seq<T>, xs: seq<T>, x: T)
    requires InFirstSeenOrder(d, xs) && x !in xs
    ensures InFirstSeenOrder(d + [x], xs + [x])
  {
    OrderExtend(d, xs, x);
    var e, ys := d + [x], xs + [x];
    assert FirstIndex(ys, x) == |xs| by {
      assert ys[..|xs|] == xs;
    }
    forall i, j | 0 <= i < j < |e|
      ensures FirstIndex(ys, e[i]) < FirstIndex(ys, e[j])
    {
      assert e[i] == d[i];
      if j < |d| {
        assert e[j] == d[j];
      } else {
        assert FirstIndex(ys, e[i]) == FirstIndex(xs, d[i]) < |xs|;
      }
    }
  }

  lemma {:induction false} FirstIndexExtend<T>(xs: seq<T>, x: T, y: T)
    requires y in xs
    ensures y in xs + [x] && FirstIndex(xs + [x], y) == FirstIndex(xs, y)
  {
    if xs[0] != y {
      assert (xs + [x])[1..] == xs[1..] + [x];
      FirstIndexExtend(xs[1..], x, y);
    }
  }
}
