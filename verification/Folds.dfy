/** Iterating and folding an arbitrary step, and the laws that survive it. */
module Folds {
  function Iterate<T>(f: T -> T, x: T, n: nat): T { if n == 0 then x else f(Iterate(f, x, n - 1)) }

  function Fold<T, B>(step: (T, B) -> T, start: T, data: seq<B>): T
    decreases |data|
  {
    if data == [] then start else Fold(step, step(start, data[0]), data[1..])
  }

  ghost predicate Linear<T(!new)>(f: T -> T, xor: (T, T) -> T) {
    forall x, y :: f(xor(x, y)) == xor(f(x), f(y))
  }

  ghost predicate Injective<T(!new)>(f: T -> T) {
    forall x, y :: f(x) == f(y) ==> x == y
  }

  ghost predicate StateInjective<T(!new), B(!new)>(step: (T, B) -> T) {
    forall x, y, b :: step(x, b) == step(y, b) ==> x == y
  }

  ghost predicate InputInjective<T(!new), B(!new)>(step: (T, B) -> T) {
    forall x, a, b :: step(x, a) == step(x, b) ==> a == b
  }

  lemma {:induction false} IterateLinear<T(!new)>(f: T -> T, xor: (T, T) -> T, x: T, y: T, n: nat)
    requires Linear(f, xor)
    ensures Iterate(f, xor(x, y), n) == xor(Iterate(f, x, n), Iterate(f, y, n))
  {
    if n > 0 {
      IterateLinear(f, xor, x, y, n - 1);
    }
  }

  lemma {:induction false} IterateInjective<T(!new)>(f: T -> T, x: T, y: T, n: nat)
    requires Injective(f) && Iterate(f, x, n) == Iterate(f, y, n)
    ensures x == y
  {
    if n > 0 {
      IterateInjective(f, x, y, n - 1);
    }
  }

  lemma IterateEight<T>(f: T -> T, x: T)
    ensures Iterate(f, x, 8) == f(f(f(f(f(f(f(f(x))))))))
  {
    assert Iterate(f, x, 2) == f(f(x));
    assert Iterate(f, x, 4) == f(f(f(f(x))));
    assert Iterate(f, x, 6) == f(f(f(f(f(f(x))))));
  }

  lemma {:induction false} FoldConcat<T, B>(step: (T, B) -> T, start: T, a: seq<B>, b: seq<B>)
    ensures Fold(step, start, a + b) == Fold(step, Fold(step, start, a), b)
    decreases |a|
  {
    if a == [] {
      assert a + b == b;
    } else {
      assert (a + b)[1..] == a[1..] + b;
      FoldConcat(step, step(start, a[0]), a[1..], b);
    }
  }

  /** Different states stay different over the same input. */
  lemma {:induction false} FoldInjective<T(!new), B(!new)>(step: (T, B) -> T, x: T, y: T, data: seq<B>)
    requires StateInjective(step) && Fold(step, x, data) == Fold(step, y, data)
    ensures x == y
    decreases |data|
  {
    if data != [] {
      FoldInjective(step, step(x, data[0]), step(y, data[0]), data[1..]);
    }
  }

  /** Inputs that differ in one byte end in different states. */
  lemma FoldSeparates<T(!new), B(!new)>(step: (T, B) -> T, start: T, before: seq<B>, x: B, y: B, after: seq<B>)
    requires StateInjective(step) && InputInjective(step) && x != y
    ensures Fold(step, start, before + [x] + after) != Fold(step, start, before + [y] + after)
  {
    var r := Fold(step, start, before);
    FoldSplit(step, start, before, x, after);
    FoldSplit(step, start, before, y, after);
    assert step(r, x) != step(r, y);
    if Fold(step, step(r, x), after) == Fold(step, step(r, y), after) {
      FoldInjective(step, step(r, x), step(r, y), after);
    }
  }

  lemma FoldSplit<T, B>(step: (T, B) -> T, start: T, before: seq<B>, x: B, after: seq<B>)
    ensures Fold(step, start, before + [x] + after) == Fold(step, step(Fold(step, start, before), x), after)
  {
    assert before + [x] + after == before + ([x] + after);
    FoldConcat(step, start, before, [x] + after);
    assert ([x] + after)[1..] == after;
  }

  function Map<A, B>(f: A -> B, s: seq<A>): (r: seq<B>)
    ensures |r| == |s| && forall i :: 0 <= i < |s| ==> r[i] == f(s[i])
  {
    seq(|s|, i requires 0 <= i < |s| => f(s[i]))
  }

  lemma MapAround<A, B>(f: A -> B, before: seq<A>, x: A, after: seq<A>)
    ensures Map(f, before + [x] + after) == Map(f, before) + [f(x)] + Map(f, after)
  {}

  ghost predicate NoDup<T>(s: seq<T>) {
    forall i, j :: 0 <= i < j < |s| ==> s[i] != s[j]
  }

  /** Listing each element of a set once gives the set as a multiset. */
  lemma {:induction false} NoDupIsMultiset<T>(s: seq<T>, elements: set<T>)
    requires NoDup(s) && forall x :: x in s <==> x in elements
    ensures multiset(s) == multiset(elements)
  {
    if s == [] {
      assert elements == {};
    } else {
      var n := |s| - 1;
      assert s == s[..n] + [s[n]];
      NoDupIsMultiset(s[..n], elements - {s[n]});
      assert elements == elements - {s[n]} + {s[n]};
    }
  }

  /** The elements that satisfy `p`, in order. */
  ghost function Select<T>(s: seq<T>, p: T -> bool): seq<T> {
    if s == [] then [] else
    var front, x := s[..|s| - 1], s[|s| - 1];
    Select(front, p) + (if p(x) then [x] else [])
  }

  lemma {:induction false} SelectMembers<T>(s: seq<T>, p: T -> bool)
    ensures forall x :: x in Select(s, p) <==> x in s && p(x)
  {
    if s != [] {
      SelectMembers(s[..|s| - 1], p);
      assert s == s[..|s| - 1] + [s[|s| - 1]];
    }
  }

  lemma {:induction false} SelectNoDup<T>(s: seq<T>, p: T -> bool)
    requires NoDup(s)
    ensures NoDup(Select(s, p))
  {
    if s != [] {
      SelectNoDup(s[..|s| - 1], p);
      SelectMembers(s[..|s| - 1], p);
      assert s[|s| - 1] !in s[..|s| - 1];
    }
  }

  lemma SelectOne<T>(s: seq<T>, x: T, p: T -> bool)
    ensures Select(s + [x], p) == Select(s, p) + (if p(x) then [x] else [])
  {
    assert (s + [x])[..|s|] == s;
  }

  lemma SelectNone<T>(p: T -> bool)
    ensures Select([], p) == []
  {}

  lemma {:induction false} SelectConcat<T>(a: seq<T>, b: seq<T>, p: T -> bool)
    ensures Select(a + b, p) == Select(a, p) + Select(b, p)
  {
    if b == [] {
      assert a + b == a;
    } else {
      var front := b[..|b| - 1];
      assert (a + b)[..|a + b| - 1] == a + front;
      SelectConcat(a, front, p);
    }
  }

  lemma {:induction false} SelectAll<T>(s: seq<T>, p: T -> bool)
    requires forall x :: x in s ==> p(x)
    ensures Select(s, p) == s
  {
    if s != [] {
      SelectAll(s[..|s| - 1], p);
      assert s == s[..|s| - 1] + [s[|s| - 1]];
    }
  }
}
