module Common {
  datatype Option<+T> = None | Some(value: T)

  /** `f` applied `n` times. */
  function Iterate<X>(f: X -> X, x: X, n: nat): X
    decreases n
  {
    if n == 0 then x else Iterate(f, f(x), n - 1)
  }

  lemma {:induction false} IterateSplits<X>(f: X -> X, x: X, n: nat, k: nat)
    ensures Iterate(f, x, n + k) == Iterate(f, Iterate(f, x, n), k)
    decreases n
  {
    if n > 0 { IterateSplits(f, f(x), n - 1, k); }
  }

  ghost predicate Preserves<X>(f: X -> X, keeps: X -> bool, x: X) { keeps(x) ==> keeps(f(x)) }

  lemma {:induction false} IterateKeeps<X(!new)>(f: X -> X, keeps: X -> bool, x: X, n: nat)
    requires keeps(x) && forall y :: Preserves(f, keeps, y)
    ensures keeps(Iterate(f, x, n))
    decreases n
  {
    if n > 0 {
      assert Preserves(f, keeps, x);
      IterateKeeps(f, keeps, f(x), n - 1);
    }
  }

  ghost predicate Descends<X>(f: X -> X, measure: X -> nat, done: X -> bool, x: X) {
    !done(x) ==> measure(f(x)) < measure(x)
  }

  /** A measure that every step lowers until `done` bounds the number of steps to `done`. */
  lemma {:induction false} ReachesDone<X(!new)>(f: X -> X, keeps: X -> bool, measure: X -> nat, done: X -> bool, x: X)
      returns (n: nat)
    requires keeps(x) && (forall y :: Preserves(f, keeps, y))
    requires forall y :: keeps(y) ==> Descends(f, measure, done, y)
    ensures n <= measure(x) && done(Iterate(f, x, n))
    decreases measure(x)
  {
    if done(x) {
      n := 0;
    } else {
      assert Descends(f, measure, done, x) && Preserves(f, keeps, x);
      var k := ReachesDone(f, keeps, measure, done, f(x));
      n := k + 1;
    }
  }

  ghost predicate LeadsTo<X>(f: X -> X, p: X -> bool, q: X -> bool, x: X) { p(x) ==> q(f(x)) }

  /** What holds after `n` steps and is kept holds ever after, and what each kept state leads to holds
      from the next step on. */
  lemma KeepsFrom<X(!new)>(f: X -> X, p: X -> bool, q: X -> bool, x: X, n: nat, k: nat)
    requires p(Iterate(f, x, n)) && n <= k
    requires forall y :: Preserves(f, p, y)
    requires forall y :: LeadsTo(f, p, q, y)
    ensures p(Iterate(f, x, k)) && (k > n ==> q(Iterate(f, x, k)))
  {
    IterateSplits(f, x, n, k - n);
    IterateKeeps(f, p, Iterate(f, x, n), k - n);
    if k > n {
      var y := Iterate(f, x, k - 1);
      IterateSplits(f, x, n, k - 1 - n);
      IterateKeeps(f, p, Iterate(f, x, n), k - 1 - n);
      IterateSplits(f, x, k - 1, 1);
      assert Iterate(f, y, 1) == f(y) by { assert Iterate(f, f(y), 0) == f(y); }
      assert LeadsTo(f, p, q, y);
    }
  }

  ghost predicate CountsDown<X>(f: X -> X, p: (X, nat) -> bool, q: X -> bool, x: X, t: nat) {
    p(x, t) && t > 0 ==> if t > 1 then p(f(x), t - 1) else q(f(x))
  }

  /** A phase that lasts exactly `t` steps, and what holds ever after. */
  lemma {:induction false} Countdown<X(!new)>(f: X -> X, p: (X, nat) -> bool, q: X -> bool, x: X, t: nat, k: nat)
    requires p(x, t) && t > 0
    requires forall y, u :: CountsDown(f, p, q, y, u)
    requires forall y :: Preserves(f, q, y)
    ensures if k < t then p(Iterate(f, x, k), t - k) else q(Iterate(f, x, k))
    decreases k
  {
    if k > 0 {
      assert CountsDown(f, p, q, x, t);
      if t > 1 {
        Countdown(f, p, q, f(x), t - 1, k - 1);
      } else {
        IterateKeeps(f, q, f(x), k - 1);
      }
    }
  }
}
