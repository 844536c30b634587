/**
 A linear feedback register over any kind of word: bits enter one at a time, are added to the
 word, and the word takes one linear step.  What is proved here holds for every such register;
 Crc32 instantiates it.  Addition is a parameter so that the proofs see only its laws.
 */
module LinearRegister {
  import opened Common

  /** The word after `bits` have entered it, first bit first. */
  function Feed<X>(step: X -> X, plus: (X, X) -> X, bit: bool -> X, word: X, bits: seq<bool>): X
    decreases |bits|
  {
    if bits == [] then word
    else Feed(step, plus, bit, step(plus(word, bit(bits[0]))), bits[1..])
  }

  function Zeros(n: nat): seq<bool> { seq(n, _ => false) }

  /** Where two bit strings of one length differ. */
  function Difference(a: seq<bool>, b: seq<bool>): (d: seq<bool>)
    requires |a| == |b|
    ensures |d| == |a|
  {
    seq(|a|, i requires 0 <= i < |a| => a[i] != b[i])
  }

  // ----- The laws -----

  ghost predicate AddsUp<X>(f: X -> X, plus: (X, X) -> X, x: X, y: X) {
    f(plus(x, y)) == plus(f(x), f(y))
  }

  ghost predicate Linear<X(!new)>(f: X -> X, plus: (X, X) -> X) {
    forall x, y :: AddsUp(f, plus, x, y)
  }

  ghost predicate Regroups<X>(plus: (X, X) -> X, a: X, b: X, c: X) {
    plus(plus(a, b), c) == plus(a, plus(b, c))
  }

  ghost predicate Exchanges<X>(plus: (X, X) -> X, a: X, b: X, c: X, d: X) {
    plus(plus(a, b), plus(c, d)) == plus(plus(a, c), plus(b, d))
  }

  ghost predicate BitSum<X>(plus: (X, X) -> X, bit: bool -> X, p: bool, q: bool) {
    plus(bit(p), bit(q)) == bit(p != q)
  }

  /** Sums may be regrouped, and the sum of two bits is the bit of their difference. */
  ghost predicate AddsBits<X(!new)>(plus: (X, X) -> X, bit: bool -> X) {
    && (forall a, b, c, d :: Exchanges(plus, a, b, c, d))
    && (forall p, q :: BitSum(plus, bit, p, q))
  }

  ghost predicate Keeps<X>(plus: (X, X) -> X, zero: X, x: X) { plus(x, zero) == x }

  ghost predicate Separates<X>(f: X -> X, x: X, y: X) { f(x) == f(y) ==> x == y }

  /** A zero bit adds nothing, and the step is one-to-one and keeps zero. */
  ghost predicate KeepsZero<X(!new)>(step: X -> X, plus: (X, X) -> X, bit: bool -> X) {
    && (forall x :: Keeps(plus, bit(false), x))
    && step(bit(false)) == bit(false)
    && (forall x, y :: Separates(step, x, y))
  }

  /** A step that shifts and then adds a feedback term chosen by the bit that fell out. */
  ghost predicate IsShiftAndFeedback<X>(step: X -> X, plus: (X, X) -> X, low: X -> bool, shift: X -> X,
      feedback: bool -> X, x: X) {
    step(x) == plus(shift(x), feedback(low(x)))
  }

  ghost predicate LowAddsUp<X>(low: X -> bool, plus: (X, X) -> X, x: X, y: X) {
    low(plus(x, y)) == (low(x) != low(y))
  }

  /** `b` is its low bit plus the rest, and a step takes the rest to half of `b`. */
  ghost predicate Splits<X>(step: X -> X, plus: (X, X) -> X, bit: bool -> X, low: X -> bool, rest: X -> X,
      half: X -> X, b: X) {
    b == plus(bit(low(b)), rest(b)) && step(rest(b)) == half(b)
  }

  /** One step on a word with `b` added is the step with the low bit of `b` added, plus half of `b`. */
  ghost predicate Peels<X>(step: X -> X, plus: (X, X) -> X, bit: bool -> X, low: X -> bool, half: X -> X,
      x: X, b: X) {
    step(plus(x, b)) == plus(step(plus(x, bit(low(b)))), half(b))
  }

  // ----- What follows from them -----

  lemma ShiftAndFeedbackIsLinear<X(!new)>(step: X -> X, plus: (X, X) -> X, low: X -> bool, shift: X -> X,
      feedback: bool -> X)
    requires forall x :: IsShiftAndFeedback(step, plus, low, shift, feedback, x)
    requires Linear(shift, plus) && AddsBits(plus, feedback)
    requires forall x, y :: LowAddsUp(low, plus, x, y)
    ensures Linear(step, plus)
  {
    forall x, y ensures AddsUp(step, plus, x, y) {
      assert IsShiftAndFeedback(step, plus, low, shift, feedback, x);
      assert IsShiftAndFeedback(step, plus, low, shift, feedback, y);
      assert IsShiftAndFeedback(step, plus, low, shift, feedback, plus(x, y));
      assert AddsUp(shift, plus, x, y) && LowAddsUp(low, plus, x, y);
      assert Exchanges(plus, shift(x), feedback(low(x)), shift(y), feedback(low(y)));
      assert BitSum(plus, feedback, low(x), low(y));
    }
  }

  lemma LinearPeels<X(!new)>(step: X -> X, plus: (X, X) -> X, bit: bool -> X, low: X -> bool, rest: X -> X,
      half: X -> X)
    requires Linear(step, plus)
    requires forall a, b, c :: Regroups(plus, a, b, c)
    requires forall b :: Splits(step, plus, bit, low, rest, half, b)
    ensures forall x, b :: Peels(step, plus, bit, low, half, x, b)
  {
    forall x, b ensures Peels(step, plus, bit, low, half, x, b) {
      assert Splits(step, plus, bit, low, rest, half, b);
      assert Regroups(plus, x, bit(low(b)), rest(b));
      assert AddsUp(step, plus, plus(x, bit(low(b))), rest(b));
    }
  }

  lemma {:induction false} IterateLinear<X(!new)>(f: X -> X, plus: (X, X) -> X, x: X, y: X, n: nat)
    requires Linear(f, plus)
    ensures Iterate(f, plus(x, y), n) == plus(Iterate(f, x, n), Iterate(f, y, n))
    decreases n
  {
    if n > 0 {
      assert AddsUp(f, plus, x, y);
      IterateLinear(f, plus, f(x), f(y), n - 1);
    }
  }

  lemma {:induction false} FeedConcat<X>(step: X -> X, plus: (X, X) -> X, bit: bool -> X, word: X,
      a: seq<bool>, b: seq<bool>)
    ensures Feed(step, plus, bit, word, a + b) == Feed(step, plus, bit, Feed(step, plus, bit, word, a), b)
    decreases |a|
  {
    if a == [] {
      assert a + b == b;
    } else {
      assert (a + b)[1..] == a[1..] + b;
      FeedConcat(step, plus, bit, step(plus(word, bit(a[0]))), a[1..], b);
    }
  }

  /** The sum of two runs is the run of the sum. */
  lemma {:induction false} FeedDifference<X(!new)>(step: X -> X, plus: (X, X) -> X, bit: bool -> X,
      x: X, y: X, a: seq<bool>, b: seq<bool>)
    requires Linear(step, plus) && AddsBits(plus, bit) && |a| == |b|
    ensures plus(Feed(step, plus, bit, x, a), Feed(step, plus, bit, y, b))
         == Feed(step, plus, bit, plus(x, y), Difference(a, b))
    decreases |a|
  {
    if a != [] {
      var x', y' := plus(x, bit(a[0])), plus(y, bit(b[0]));
      assert AddsUp(step, plus, x', y');
      assert Exchanges(plus, x, bit(a[0]), y, bit(b[0]));
      assert BitSum(plus, bit, a[0], b[0]);
      assert Difference(a, b)[1..] == Difference(a[1..], b[1..]);
      FeedDifference(step, plus, bit, step(x'), step(y'), a[1..], b[1..]);
    }
  }

  /** Zero bits take a word to zero only from zero. */
  lemma {:induction false} FeedZeros<X(!new)>(step: X -> X, plus: (X, X) -> X, bit: bool -> X, word: X, n: nat)
    requires KeepsZero(step, plus, bit)
    ensures Feed(step, plus, bit, word, Zeros(n)) == bit(false) <==> word == bit(false)
    decreases n
  {
    if n > 0 {
      assert Keeps(plus, bit(false), word);
      assert Separates(step, word, bit(false));
      assert Zeros(n)[1..] == Zeros(n - 1);
      FeedZeros(step, plus, bit, step(word), n - 1);
    }
  }

  lemma FeedPadded<X(!new)>(step: X -> X, plus: (X, X) -> X, bit: bool -> X, p: nat, w: seq<bool>, q: nat)
    requires KeepsZero(step, plus, bit)
    requires Feed(step, plus, bit, bit(false), w) != bit(false)
    ensures Feed(step, plus, bit, bit(false), Zeros(p) + (w + Zeros(q))) != bit(false)
  {
    FeedConcat(step, plus, bit, bit(false), Zeros(p), w + Zeros(q));
    FeedZeros(step, plus, bit, bit(false), p);
    FeedConcat(step, plus, bit, bit(false), w, Zeros(q));
    FeedZeros(step, plus, bit, Feed(step, plus, bit, bit(false), w), q);
  }

  function LowBits<X>(low: X -> bool, half: X -> X, b: X, n: nat): (bits: seq<bool>)
    ensures |bits| == n
    decreases n
  {
    if n == 0 then [] else [low(b)] + LowBits(low, half, half(b), n - 1)
  }

  /** Adding `b` and then stepping `n` times feeds in the `n` low bits of `b`; the rest of `b` stays added. */
  lemma {:induction false} StepsFeed<X(!new)>(step: X -> X, plus: (X, X) -> X, bit: bool -> X,
      low: X -> bool, half: X -> X, x: X, b: X, n: nat)
    requires forall u, v :: Peels(step, plus, bit, low, half, u, v)
    ensures Iterate(step, plus(x, b), n)
         == plus(Feed(step, plus, bit, x, LowBits(low, half, b, n)), Iterate(half, b, n))
    decreases n
  {
    if n > 0 {
      assert Peels(step, plus, bit, low, half, x, b);
      var x' := step(plus(x, bit(low(b))));
      StepsFeed(step, plus, bit, low, half, x', half(b), n - 1);
      assert LowBits(low, half, b, n)[1..] == LowBits(low, half, half(b), n - 1);
    }
  }
}
