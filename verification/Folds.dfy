/** Iterating a register step, and what an iteration inherits from the step. */
module Folds {

  function Iter<T>(f: T -> T, x: T, n: nat): T {
    if n == 0 then x else f(Iter(f, x, n - 1))
  }

  function Fold<T>(step: (T, T) -> T, zero: T, s: seq<T>): T {
    if s == [] then zero else step(Fold(step, zero, s[..|s| - 1]), s[|s| - 1])
  }

  function Zip<T>(op: (T, T) -> T, a: seq<T>, b: seq<T>): (r: seq<T>)
    requires |a| == |b|
    ensures |r| == |a|
    ensures forall i :: 0 <= i < |a| ==> r[i] == op(a[i], b[i])
  {
    seq(|a|, i requires 0 <= i < |a| => op(a[i], b[i]))
  }

  function Map<T, U>(h: T -> U, s: seq<T>): (r: seq<U>)
    ensures |r| == |s|
    ensures forall i :: 0 <= i < |s| ==> r[i] == h(s[i])
  {
    seq(|s|, i requires 0 <= i < |s| => h(s[i]))
  }

  lemma MapSnoc<T, U>(h: T -> U, s: seq<T>)
    requires s != []
    ensures Map(h, s) == Map(h, s[..|s| - 1]) + [h(s[|s| - 1])]
  {
  }

  ghost predicate Distributes<T(!new)>(f: T -> T, op: (T, T) -> T) {
    forall x, y :: f(op(x, y)) == op(f(x), f(y))
  }

  ghost predicate Interchanges<T(!new)>(step: (T, T) -> T, op: (T, T) -> T) {
    forall c, d, x, y :: step(op(c, d), op(x, y)) == op(step(c, x), step(d, y))
  }

  lemma {:induction false} IterDistributes<T(!new)>(f: T -> T, op: (T, T) -> T, x: T, y: T, n: nat)
    requires Distributes(f, op)
    ensures Iter(f, op(x, y), n) == op(Iter(f, x, n), Iter(f, y, n))
    decreases n
  {
    if n > 0 {
      IterDistributes(f, op, x, y, n - 1);
    }
  }

  /** A step that mixes in by an interchanging operation and then iterates a distributing map interchanges too. */
  lemma IterInterchanges<T(!new)>(step: (T, T) -> T, f: T -> T, op: (T, T) -> T, n: nat)
    requires Distributes(f, op)
    requires Interchanges(op, op)
    requires forall c, x :: step(c, x) == Iter(f, op(c, x), n)
    ensures Interchanges(step, op)
  {
    forall c, d, x, y ensures step(op(c, d), op(x, y)) == op(step(c, x), step(d, y)) {
      IterDistributes(f, op, op(c, x), op(d, y), n);
    }
  }

  lemma {:induction false} IterUndone<T(!new)>(f: T -> T, g: T -> T, x: T, y: T, n: nat)
    requires forall x :: g(f(x)) == x
    requires Iter(f, x, n) == Iter(f, y, n)
    ensures x == y
    decreases n
  {
    if n > 0 {
      assert g(Iter(f, x, n)) == Iter(f, x, n - 1) && g(Iter(f, y, n)) == Iter(f, y, n - 1);
      IterUndone(f, g, x, y, n - 1);
    }
  }

  lemma {:induction false} IterKeeps<T(!new), U(!new)>(f: T -> T, h: T -> U, x: T, n: nat)
    requires forall x :: h(f(x)) == h(x)
    ensures h(Iter(f, x, n)) == h(x)
    decreases n
  {
    if n > 0 {
      IterKeeps(f, h, x, n - 1);
    }
  }

  lemma {:induction false} FoldInterchanges<T(!new)>(step: (T, T) -> T, op: (T, T) -> T, zero: T, a: seq<T>, b: seq<T>)
    requires Interchanges(step, op) && op(zero, zero) == zero && |a| == |b|
    ensures Fold(step, zero, Zip(op, a, b)) == op(Fold(step, zero, a), Fold(step, zero, b))
    decreases |a|
  {
    if a != [] {
      var n := |a| - 1;
      assert Zip(op, a, b)[..n] == Zip(op, a[..n], b[..n]);
      FoldInterchanges(step, op, zero, a[..n], b[..n]);
    }
  }

  ghost predicate Homomorphic<T(!new), U(!new)>(h: T -> U, step: (T, T) -> T, op: (U, U) -> U) {
    forall c, x :: h(step(c, x)) == op(h(c), h(x))
  }

  lemma {:induction false} FoldHomomorphic<T(!new), U(!new)>(
    h: T -> U, step: (T, T) -> T, op: (U, U) -> U, zero: T, s: seq<T>)
    requires Homomorphic(h, step, op)
    ensures h(Fold(step, zero, s)) == Fold(op, h(zero), Map(h, s))
    decreases |s|
  {
    if s != [] {
      var n := |s| - 1;
      assert Map(h, s)[..n] == Map(h, s[..n]);
      FoldHomomorphic(h, step, op, zero, s[..n]);
    }
  }

  lemma FoldSnoc<T>(step: (T, T) -> T, zero: T, s: seq<T>, x: T)
    ensures Fold(step, zero, s + [x]) == step(Fold(step, zero, s), x)
  {
  }

  /** A run of steps that each map only the resting state to itself never reaches it from elsewhere. */
  lemma {:induction false} FoldIdle<T(!new)>(step: (T, T) -> T, zero: T, idle: T, s: seq<T>, t: seq<T>)
    requires forall c :: step(c, idle) == zero <==> c == zero
    requires forall i :: 0 <= i < |t| ==> t[i] == idle
    ensures Fold(step, zero, s + t) == zero <==> Fold(step, zero, s) == zero
    decreases |t|
  {
    if t == [] {
      assert s + t == s;
    } else {
      var n := |t| - 1;
      FoldIdle(step, zero, idle, s, t[..n]);
      assert s + t == (s + t[..n]) + [t[n]];
      FoldSnoc(step, zero, s + t[..n], t[n]);
    }
  }
}
