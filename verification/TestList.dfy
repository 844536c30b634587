/**
 The registration list of the test harness: nodes linked in place by constructors that some toolchains
 run in source order and some in reverse, and the loop that runs the tests.
 */
module TestList {

  const FORWARD := 1
  const BACKWARD := -1

  class TestMetadata {
    var passed: bool
    var prev: TestMetadata?
    var next: TestMetadata?

    constructor ()
    {
      passed, prev, next := false, null, null;
    }
  }

  predicate Distinct<T(==)>(s: seq<T>) { forall i, j | 0 <= i < j < |s| :: s[i] != s[j] }

  function CountPassed(outcome: nat -> bool, n: nat): (c: nat)
    ensures c <= n
  {
    if n == 0 then 0 else CountPassed(outcome, n - 1) + if outcome(n - 1) then 1 else 0
  }

  class Harness {
    var testList: TestMetadata?
    var testCount: nat
    var constructorOrder: int
    /** The registered tests, in the order `next` visits them. */
    ghost var tests: seq<TestMetadata>

    /** The list proper: `next` runs through `tests` once and ends, `prev` leads back, and the head's
        `prev` is the tail in forward order and the head itself otherwise. */
    ghost predicate Valid()
      reads this, tests`prev, tests`next
    {
      && testCount == |tests| && Distinct(tests)
      && (tests == [] <==> testList == null)
      && (tests != [] ==>
            && testList == tests[0]
            && tests[|tests| - 1].next == null
            && tests[0].prev == if constructorOrder == FORWARD then tests[|tests| - 1] else tests[0])
      && (forall i {:trigger tests[i].next} | 0 <= i < |tests| - 1 :: tests[i].next == tests[i + 1])
      && (forall i {:trigger tests[i].prev} | 1 <= i < |tests| :: tests[i].prev == tests[i - 1])
    }

    constructor ()
      ensures Valid() && tests == [] && constructorOrder == 0
    {
      testList, testCount, constructorOrder, tests := null, 0, 0, [];
    }

    /** The constructor in the header, first in source order. */
    method ConstructorOrderFirst()
      requires Valid() && (constructorOrder == 0 ==> |tests| <= 1)
      modifies this
      ensures Valid() && tests == old(tests)
      ensures constructorOrder == if old(constructorOrder) == 0 then FORWARD else old(constructorOrder)
    {
      if constructorOrder == 0 {
        constructorOrder := FORWARD;
      }
    }

    /** The constructor at the end of the test file. */
    method ConstructorOrderLast()
      requires Valid()
      modifies this
      ensures Valid() && tests == old(tests)
      ensures constructorOrder == if old(constructorOrder) == 0 then BACKWARD else old(constructorOrder)
    {
      if constructorOrder == 0 {
        constructorOrder := BACKWARD;
      }
    }

    /** Links `t` in at the end in forward order, at the front otherwise. */
    method RegisterTest(t: TestMetadata)
      requires Valid() && t !in tests
      modifies this, t, tests
      ensures Valid() && constructorOrder == old(constructorOrder)
      ensures tests == if constructorOrder == FORWARD then old(tests) + [t] else [t] + old(tests)
    {
      testCount := testCount + 1;
      if testList == null {
        testList := t;
        t.next := null;
        t.prev := t;
        tests := [t];
        return;
      }
      if constructorOrder == FORWARD {
        t.next := null;
        t.prev := testList.prev;
        t.prev.next := t;
        testList.prev := t;
        tests := tests + [t];
      } else {
        t.next := testList;
        t.next.prev := t;
        t.prev := t;
        testList := t;
        tests := [t] + tests;
      }
    }

    /** Runs every test in list order; `outcome` is what running the test at each place would set. */
    method TestHarnessRun(outcome: nat -> bool) returns (ret: int, count: nat, passCount: nat)
      requires Valid()
      modifies tests`passed
      ensures Valid() && tests == old(tests)
      ensures forall i | 0 <= i < |tests| :: tests[i].passed == outcome(i)
      ensures count == testCount && passCount == CountPassed(outcome, count)
      ensures (ret == 0 <==> passCount == count) && (ret == 0 || ret == 1)
    {
      ret, count, passCount := 0, 0, 0;
      var t := testList;
      while t != null
        invariant 0 <= count <= |tests| && Valid() && tests == old(tests)
        invariant t == if count < |tests| then tests[count] else null
        invariant forall i | 0 <= i < count :: tests[i].passed == outcome(i)
        invariant passCount == CountPassed(outcome, count) <= count
        invariant (ret == 0 <==> passCount == count) && (ret == 0 || ret == 1)
        decreases |tests| - count
      {
        t.passed := outcome(count);
        if t.passed {
          passCount := passCount + 1;
        } else {
          ret := 1;
        }
        count := count + 1;
        t := t.next;
      }
    }
  }

  /** The count is full exactly when every test passed. */
  lemma {:induction false} AllPassedIff(outcome: nat -> bool, n: nat)
    ensures CountPassed(outcome, n) == n <==> forall i: nat | i < n :: outcome(i)
  {
    if n > 0 { AllPassedIff(outcome, n - 1); }
  }

  /** The count is the number of places whose test passes. */
  lemma {:induction false} CountIsCardinality(outcome: nat -> bool, n: nat)
    ensures CountPassed(outcome, n) == |set i: nat | i < n && outcome(i)|
  {
    var passing := set i: nat | i < n && outcome(i);
    if n == 0 {
      assert passing == {};
    } else {
      CountIsCardinality(outcome, n - 1);
      var before := set i: nat | i < n - 1 && outcome(i);
      assert passing == if outcome(n - 1) then before + {n - 1} else before;
    }
  }

  /** All constructors of a test file, on a toolchain that runs them in source order or in reverse:
      either way the list is in source order. */
  method RunConstructors(source: seq<TestMetadata>, inOrder: bool) returns (h: Harness)
    requires Distinct(source)
    modifies source
    ensures fresh(h) && h.Valid() && h.tests == source
    ensures h.constructorOrder == if inOrder then FORWARD else BACKWARD
  {
    h := new Harness();
    if inOrder {
      h.ConstructorOrderFirst();
      for i := 0 to |source|
        invariant h.Valid() && h.constructorOrder == FORWARD && h.tests == source[..i]
      {
        h.RegisterTest(source[i]);
      }
      h.ConstructorOrderLast();
      assert source[..|source|] == source;
    } else {
      h.ConstructorOrderLast();
      for i := |source| downto 0
        invariant h.Valid() && h.constructorOrder == BACKWARD && h.tests == source[i..]
      {
        h.RegisterTest(source[i]);
      }
      h.ConstructorOrderFirst();
    }
  }

  // ----- Following next -----

  /** The test `n` links on from `t`; null when the list ends before. */
  function Follow(t: TestMetadata?, n: nat, nodes: set<TestMetadata>): TestMetadata?
    requires t != null ==> t in nodes
    requires forall x | x in nodes :: x.next != null ==> x.next in nodes
    reads nodes
    decreases n
  {
    if n == 0 || t == null then t else Follow(t.next, n - 1, nodes)
  }

  /** Following `next` from the head visits each test once, in list order, and then ends. */
  lemma {:induction false} NextVisitsAll(h: Harness, i: nat, n: nat)
    requires h.Valid() && i <= |h.tests|
    ensures forall x | x in (set y | y in h.tests) :: x.next != null ==> x.next in (set y | y in h.tests)
    ensures Follow(if i < |h.tests| then h.tests[i] else null, n, set y | y in h.tests)
         == if i + n < |h.tests| then h.tests[i + n] else null
    decreases n
  {
    if n > 0 && i < |h.tests| {
      NextVisitsAll(h, i + 1, n - 1);
    }
  }
}
