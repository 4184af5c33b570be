/** A register that takes in one bit at a time, over any type of register contents. The laws here
    need only what each one names about a single step, so no fact about machine words enters. */
module ShiftRegister {
  /** The register after the bits, first bit first. */
  function Run<R>(step: (R, bool) -> R, c: R, bits: seq<bool>): R
    decreases |bits|
  {
    if |bits| == 0 then c else Run(step, step(c, bits[0]), bits[1..])
  }

  function Iterate<R>(f: R -> R, c: R, n: nat): R
    decreases n
  {
    if n == 0 then c else Iterate(f, f(c), n - 1)
  }

  ghost predicate Injective<R(!new)>(f: R -> R) {
    forall x, y {:trigger f(x), f(y)} :: f(x) == f(y) ==> x == y
  }

  ghost predicate StepInjective<R(!new)>(step: (R, bool) -> R) {
    forall x, y, b {:trigger step(x, b), step(y, b)} :: step(x, b) == step(y, b) ==> x == y
  }

  /** The bits a word hands out, lowest first. */
  predicate Spells<R>(low: R -> bool, tail: R -> R, w: R, bits: seq<bool>)
    decreases |bits|
  {
    |bits| == 0 || (low(w) == bits[0] && Spells(low, tail, tail(w), bits[1..]))
  }

  lemma {:induction false} RunConcat<R>(step: (R, bool) -> R, c: R, x: seq<bool>, y: seq<bool>)
    ensures Run(step, c, x + y) == Run(step, Run(step, c, x), y)
    decreases |x|
  {
    if |x| == 0 {
      assert x + y == y;
    } else {
      assert (x + y)[1..] == x[1..] + y;
      RunConcat(step, step(c, x[0]), x[1..], y);
    }
  }

  lemma {:induction false} RunInjective<R(!new)>(step: (R, bool) -> R, x: R, y: R, bits: seq<bool>)
    requires StepInjective(step)
    requires Run(step, x, bits) == Run(step, y, bits)
    ensures x == y
    decreases |bits|
  {
    if |bits| > 0 {
      var b := bits[0];
      RunInjective(step, step(x, b), step(y, b), bits[1..]);
      assert step(x, b) == step(y, b);
    }
  }

  lemma {:induction false} IterateInjective<R(!new)>(f: R -> R, x: R, y: R, n: nat)
    requires Injective(f)
    requires Iterate(f, x, n) == Iterate(f, y, n)
    ensures x == y
    decreases n
  {
    if n > 0 {
      IterateInjective(f, f(x), f(y), n - 1);
    }
  }

  lemma {:induction false} IterateAdd<R>(f: R -> R, c: R, m: nat, n: nat)
    ensures Iterate(f, c, m + n) == Iterate(f, Iterate(f, c, m), n)
    decreases m
  {
    if m > 0 {
      IterateAdd(f, f(c), m - 1, n);
    }
  }

  lemma {:induction false} IterateLinear<R(!new)>(f: R -> R, add: (R, R) -> R, x: R, y: R, n: nat)
    requires forall a, b :: f(add(a, b)) == add(f(a), f(b))
    ensures Iterate(f, add(x, y), n) == add(Iterate(f, x, n), Iterate(f, y, n))
    decreases n
  {
    if n > 0 {
      assert f(add(x, y)) == add(f(x), f(y));
      IterateLinear(f, add, f(x), f(y), n - 1);
    }
  }

  /** If in one shift only the low bit of an added word takes part, then feeding a word's bits one
      at a time is adding the whole word first and shifting afterwards, up to the bits left over. */
  lemma {:induction false} RunIsIterate<R(!new)>(step: (R, bool) -> R, shift: R -> R, add: (R, R) -> R,
                                                 low: R -> bool, tail: R -> R, c: R, w: R, bits: seq<bool>)
    requires forall a, b :: shift(add(a, b)) == add(step(a, low(b)), tail(b))
    requires Spells(low, tail, w, bits)
    ensures Iterate(shift, add(c, w), |bits|) == add(Run(step, c, bits), Iterate(tail, w, |bits|))
    decreases |bits|
  {
    if |bits| > 0 {
      assert shift(add(c, w)) == add(step(c, low(w)), tail(w));
      RunIsIterate(step, shift, add, low, tail, step(c, bits[0]), tail(w), bits[1..]);
    }
  }

}
