/** Day 7: find operators that make each calibration equation true.
    Challenge 1 tries `+` and `*`, challenge 2 also `||` (decimal
    concatenation); operators are enumerated as the base-2 or base-3
    digits of a seed and evaluated strictly left to right. */
module OperatorSearch {
  import opened Options
  import opened Text
  import opened Numbers

  // ---------------------------------------------------------------------
  // `seed.toString(base).padStart(length, "0")`

  function Power(b: nat, k: nat): (p: nat)
    requires b >= 1
    ensures p >= 1
  {
    if k == 0 then 1 else b * Power(b, k - 1)
  }

  predicate DigitsBelow(ds: seq<nat>, b: nat)
  {
    forall i :: 0 <= i < |ds| ==> ds[i] < b
  }

  /** `n.toString(b)`: the digits, most significant first, without leading
      zeros; 0 is written "0". */
  function ToBase(n: nat, b: nat): (ds: seq<nat>)
    requires b >= 2
    ensures |ds| >= 1 && DigitsBelow(ds, b)
  {
    if n < b then [n] else DivSmaller(n, b); ToBase(n / b, b) + [n % b]
  }

  /** The value of a digit string in base `b` (Horner's rule). */
  function FromDigits(ds: seq<nat>, b: nat): nat
  {
    if |ds| == 0 then 0 else FromDigits(ds[..|ds| - 1], b) * b + ds[|ds| - 1]
  }

  /** `padStart(length, "0")`: zeros in front up to `length` digits; a longer
      string is left as it is. */
  function PadStart(ds: seq<nat>, length: nat): (r: seq<nat>)
    ensures |r| == if |ds| >= length then |ds| else length
    ensures r[|r| - |ds|..] == ds
    ensures forall i :: 0 <= i < |r| - |ds| ==> r[i] == 0
  {
    if |ds| >= length then ds else seq(length - |ds|, _ => 0) + ds
  }

  function SeedDigits(seed: nat, b: nat, length: nat): (ds: seq<nat>)
    requires b >= 2
    ensures |ds| >= length && DigitsBelow(ds, b)
  {
    PadStart(ToBase(seed, b), length)
  }

  lemma {:induction false} ToBaseValue(n: nat, b: nat)
    requires b >= 2
    ensures FromDigits(ToBase(n, b), b) == n
  {
    if n >= b {
      DivSmaller(n, b);
      DivMod(n, b);
      var ds := ToBase(n, b);
      assert ds[..|ds| - 1] == ToBase(n / b, b);
      ToBaseValue(n / b, b);
    }
  }

  lemma {:induction false} FromDigitsAppend(xs: seq<nat>, ys: seq<nat>, b: nat)
    requires b >= 1
    ensures FromDigits(xs + ys, b) == FromDigits(xs, b) * Power(b, |ys|) + FromDigits(ys, b)
  {
    if |ys| == 0 {
      assert xs + ys == xs;
    } else {
      var ys' := ys[..|ys| - 1];
      assert (xs + ys)[..|xs + ys| - 1] == xs + ys';
      FromDigitsAppend(xs, ys', b);
      var a, p, c := FromDigits(xs, b), Power(b, |ys'|), FromDigits(ys', b);
      calc {
        FromDigits(xs + ys, b);
        (a * p + c) * b + ys[|ys| - 1];
        { MulShift(a, p, c, b); }
        a * (b * p) + (c * b + ys[|ys| - 1]);
      }
    }
  }

  lemma MulShift(a: int, p: int, c: int, b: int)
    ensures (a * p + c) * b == a * (b * p) + c * b
  {
  }

  lemma {:induction false} FromDigitsZeros(k: nat, b: nat)
    ensures FromDigits(seq(k, _ => 0), b) == 0
  {
    if k > 0 {
      assert seq(k, _ => 0)[..k - 1] == seq(k - 1, _ => 0);
      FromDigitsZeros(k - 1, b);
    }
  }

  /** A digit string is worth less than `b` to the power of its length. */
  lemma {:induction false} FromDigitsBound(ds: seq<nat>, b: nat)
    requires b >= 1 && DigitsBelow(ds, b)
    ensures FromDigits(ds, b) < Power(b, |ds|)
  {
    if |ds| > 0 {
      var ds' := ds[..|ds| - 1];
      FromDigitsBound(ds', b);
      BoundStep(FromDigits(ds', b), Power(b, |ds'|), ds[|ds| - 1], b);
    }
  }

  lemma BoundStep(v: nat, p: nat, d: nat, b: nat)
    requires v < p && d < b
    ensures v * b + d < b * p
  {
    assert v * b + d < v * b + b == (v + 1) * b <= p * b;
  }

  /** `toString(b)` uses no more digits than the seed needs. */
  lemma {:induction false} ToBaseLength(n: nat, b: nat, k: nat)
    requires b >= 2 && k >= 1 && n < Power(b, k)
    ensures |ToBase(n, b)| <= k
  {
    if n >= b {
      DivBound(n, b, Power(b, k - 1));
      ToBaseLength(n / b, b, k - 1);
    }
  }

  lemma DivBound(n: nat, b: nat, p: nat)
    requires b >= 1 && n < b * p
    ensures n / b < p
  {
  }

  /** Leading zeros do not change a value. */
  lemma PadStartValue(ds: seq<nat>, length: nat, b: nat)
    requires b >= 1
    ensures FromDigits(PadStart(ds, length), b) == FromDigits(ds, b)
  {
    if |ds| < length {
      var zs := seq(length - |ds|, _ => 0);
      assert PadStart(ds, length) == zs + ds;
      FromDigitsAppend(zs, ds, b);
      FromDigitsZeros(length - |ds|, b);
    }
  }

  /** Padded digits keep the seed's value. */
  lemma SeedDigitsValue(seed: nat, b: nat, length: nat)
    requires b >= 2
    ensures FromDigits(SeedDigits(seed, b, length), b) == seed
  {
    ToBaseValue(seed, b);
    PadStartValue(ToBase(seed, b), length, b);
  }

  /** For `1 <= length` and `seed < b^length` exactly `length` digits. */
  lemma SeedDigitsLength(seed: nat, b: nat, length: nat)
    requires b >= 2 && length >= 1 && seed < Power(b, length)
    ensures |SeedDigits(seed, b, length)| == length
  {
    ToBaseLength(seed, b, length);
  }

  lemma DivMod(n: nat, b: nat)
    requires b >= 2
    ensures n == (n / b) * b + n % b && n % b < b
  {
  }

  lemma DivSmaller(n: nat, b: nat)
    requires b >= 2 && n >= b
    ensures 1 <= n / b < n
  {
  }

  /** Digit strings of one length are determined by their value. */
  lemma {:induction false} FromDigitsInjective(xs: seq<nat>, ys: seq<nat>, b: nat)
    requires b >= 1 && |xs| == |ys| && DigitsBelow(xs, b) && DigitsBelow(ys, b)
    requires FromDigits(xs, b) == FromDigits(ys, b)
    ensures xs == ys
  {
    if |xs| > 0 {
      var n := |xs| - 1;
      DivModUnique(FromDigits(xs[..n], b), xs[n], b, FromDigits(xs[..n], b) * b + xs[n]);
      DivModUnique(FromDigits(ys[..n], b), ys[n], b, FromDigits(ys[..n], b) * b + ys[n]);
      FromDigitsInjective(xs[..n], ys[..n], b);
      assert xs == xs[..n] + [xs[n]] && ys == ys[..n] + [ys[n]];
    }
  }

  /** Every digit string of length `length >= 1` is the padded expansion of
      exactly one seed below `b^length`: its value. */
  lemma SeedOfDigits(ds: seq<nat>, b: nat)
    requires b >= 2 && |ds| >= 1 && DigitsBelow(ds, b)
    ensures FromDigits(ds, b) < Power(b, |ds|)
    ensures SeedDigits(FromDigits(ds, b), b, |ds|) == ds
  {
    var seed := FromDigits(ds, b);
    FromDigitsBound(ds, b);
    SeedDigitsLength(seed, b, |ds|);
    SeedDigitsValue(seed, b, |ds|);
    FromDigitsInjective(SeedDigits(seed, b, |ds|), ds, b);
  }

  /** The `i`-th digit of a string is digit `|ds|-1-i` of its value. */
  lemma DigitOfValue(ds: seq<nat>, b: nat, i: nat)
    requires b >= 2 && DigitsBelow(ds, b) && i < |ds|
    ensures ds[i] == (FromDigits(ds, b) / Power(b, |ds| - 1 - i)) % b
  {
    var hi, lo := ds[..i + 1], ds[i + 1..];
    assert ds == hi + lo;
    FromDigitsAppend(hi, lo, b);
    FromDigitsBound(lo, b);
    DivModUnique(FromDigits(hi, b), FromDigits(lo, b), Power(b, |lo|), FromDigits(hi, b) * Power(b, |lo|) + FromDigits(lo, b));
    assert hi[..i] == ds[..i];
    DivModUnique(FromDigits(ds[..i], b), ds[i], b, FromDigits(ds[..i], b) * b + ds[i]);
  }

  /** The `i`-th padded digit is the `i`-th most significant digit of the
      seed: `(seed / b^(length-1-i)) % b`. */
  lemma SeedDigitAt(seed: nat, b: nat, length: nat, i: nat)
    requires b >= 2 && length >= 1 && seed < Power(b, length) && i < length
    ensures SeedDigits(seed, b, length)[i] == (seed / Power(b, length - 1 - i)) % b
  {
    SeedDigitsLength(seed, b, length);
    SeedDigitsValue(seed, b, length);
    DigitOfValue(SeedDigits(seed, b, length), b, i);
  }

  // ---------------------------------------------------------------------
  // Operators and evaluation

  datatype Op = Plus | Times | Concat

  /** Challenge 1: a `0` digit is `+`, anything else `*`. */
  function PlusAndMultiplyCombinations(length: nat, seed: nat): (ops: seq<Op>)
    ensures |ops| == |SeedDigits(seed, 2, length)| >= length && PlusTimesOnly(ops)
  {
    var ds := SeedDigits(seed, 2, length);
    seq(|ds|, i requires 0 <= i < |ds| => if ds[i] == 0 then Plus else Times)
  }

  /** Challenge 2: digits 0, 1, 2 are `+`, `*`, `||`. */
  function OperatorCombinations(length: nat, seed: nat): (ops: seq<Op>)
    ensures |ops| == |SeedDigits(seed, 3, length)| >= length
  {
    var ds := SeedDigits(seed, 3, length);
    seq(|ds|, i requires 0 <= i < |ds| => if ds[i] == 0 then Plus else if ds[i] == 1 then Times else Concat)
  }

  /** The `i`-th operator of challenge 1 is `*` exactly when the `i`-th most
      significant binary digit of the seed is 1. */
  lemma PlusTimesOpAt(length: nat, seed: nat, i: nat)
    requires length >= 1 && seed < Power(2, length) && i < length
    ensures |PlusAndMultiplyCombinations(length, seed)| == length
    ensures PlusAndMultiplyCombinations(length, seed)[i] == Times <==> (seed / Power(2, length - 1 - i)) % 2 == 1
  {
    var ds := SeedDigits(seed, 2, length);
    SeedDigitsLength(seed, 2, length);
    SeedDigitAt(seed, 2, length, i);
    assert PlusAndMultiplyCombinations(length, seed)[i] == if ds[i] == 0 then Plus else Times;
  }

  /** The `i`-th operator of challenge 2 is `+`, `*` or `||` as the `i`-th most
      significant base-3 digit of the seed is 0, 1 or 2. */
  lemma OperatorAt(length: nat, seed: nat, i: nat)
    requires length >= 1 && seed < Power(3, length) && i < length
    ensures |OperatorCombinations(length, seed)| == length
    ensures OpDigit(OperatorCombinations(length, seed)[i]) == (seed / Power(3, length - 1 - i)) % 3
  {
    var ds := SeedDigits(seed, 3, length);
    SeedDigitsLength(seed, 3, length);
    SeedDigitAt(seed, 3, length, i);
    assert OperatorCombinations(length, seed)[i] == if ds[i] == 0 then Plus else if ds[i] == 1 then Times else Concat;
  }

  /** The digit an operator stands for in both generators. */
  function OpDigit(op: Op): nat
  {
    match op
    case Plus => 0
    case Times => 1
    case Concat => 2
  }

  predicate PlusTimesOnly(ops: seq<Op>)
  {
    forall i :: 0 <= i < |ops| ==> ops[i] != Concat
  }

  /** `Number(`${acc}${n}`)`. */
  function ConcatNumbers(acc: nat, n: nat): nat
  {
    ParseNat(NatToString(acc) + NatToString(n))
  }

  /** Concatenation shifts `acc` left by the number of digits of `n`. */
  lemma ConcatIsShift(acc: nat, n: nat)
    ensures ConcatNumbers(acc, n) == acc * Pow10(|NatToString(n)|) + n
  {
    ParseNatAppend(NatToString(acc), NatToString(n));
    ParseNatToString(acc);
    ParseNatToString(n);
  }

  /** Challenge 1's operator application: anything but `+` multiplies. */
  function Apply1(acc: nat, op: Op, n: nat): nat
  {
    if op == Plus then acc + n else acc * n
  }

  /** Challenge 2's operator application. */
  function Apply2(acc: nat, op: Op, n: nat): nat
  {
    if op == Plus then acc + n else if op == Times then acc * n else ConcatNumbers(acc, n)
  }

  /** `rest.reduce((acc, n, index) => apply(acc, ops[index], n), acc)`. */
  function Fold(apply: (nat, Op, nat) -> nat, acc: nat, rest: seq<nat>, ops: seq<Op>): nat
    requires |rest| <= |ops|
    decreases |rest|
  {
    if |rest| == 0 then acc else Fold(apply, apply(acc, ops[0], rest[0]), rest[1..], ops[1..])
  }

  /** getSumOfExpression of challenge 1. */
  function SumOfExpression1(numbers: seq<nat>, ops: seq<Op>): nat
    requires |numbers| >= 1 && |ops| >= |numbers| - 1
  {
    Fold(Apply1, numbers[0], numbers[1..], ops)
  }

  /** getSumOfExpression of challenge 2. */
  function SumOfExpression2(numbers: seq<nat>, ops: seq<Op>): nat
    requires |numbers| >= 1 && |ops| >= |numbers| - 1
  {
    Fold(Apply2, numbers[0], numbers[1..], ops)
  }

  /** The reference reading: `((n0 op0 n1) op1 n2) ...`, the last operator
      applied last, with no precedence between operators. */
  function LeftNested(apply: (nat, Op, nat) -> nat, numbers: seq<nat>, ops: seq<Op>): nat
    requires |numbers| >= 1 && |ops| >= |numbers| - 1
  {
    if |numbers| == 1 then numbers[0]
    else
      var k := |numbers| - 1;
      apply(LeftNested(apply, numbers[..k], ops), ops[k - 1], numbers[k])
  }

  lemma {:induction false} FoldSnoc(apply: (nat, Op, nat) -> nat, acc: nat, rest: seq<nat>, x: nat, ops: seq<Op>)
    requires |rest| + 1 <= |ops|
    ensures Fold(apply, acc, rest + [x], ops) == apply(Fold(apply, acc, rest, ops), ops[|rest|], x)
    decreases |rest|
  {
    if |rest| > 0 {
      assert (rest + [x])[1..] == rest[1..] + [x];
      FoldSnoc(apply, apply(acc, ops[0], rest[0]), rest[1..], x, ops[1..]);
    }
  }

  /** The fold evaluates strictly left to right. */
  lemma {:induction false} FoldIsLeftNested(apply: (nat, Op, nat) -> nat, numbers: seq<nat>, ops: seq<Op>)
    requires |numbers| >= 1 && |ops| >= |numbers| - 1
    ensures Fold(apply, numbers[0], numbers[1..], ops) == LeftNested(apply, numbers, ops)
  {
    if |numbers| > 1 {
      var k := |numbers| - 1;
      FoldIsLeftNested(apply, numbers[..k], ops);
      assert numbers[1..] == numbers[..k][1..] + [numbers[k]];
      FoldSnoc(apply, numbers[0], numbers[..k][1..], numbers[k], ops);
    }
  }

  /** `2 + 3 * 4` is 20, not 14. */
  lemma NoPrecedence()
    ensures SumOfExpression1([2, 3, 4], [Plus, Times]) == 20
    ensures SumOfExpression2([2, 3, 4], [Plus, Times]) == 20
  {
    var ops := [Plus, Times];
    assert [2, 3, 4][1..] == [3, 4] && [3, 4][1..] == [4] && [4][1..] == [];
    assert Fold(Apply1, 5, [4], ops[1..]) == 20 == Fold(Apply2, 5, [4], ops[1..]);
  }

  /** Operators past the last number are never read. */
  lemma {:induction false} FoldPrefix(apply: (nat, Op, nat) -> nat, acc: nat, rest: seq<nat>, ops: seq<Op>)
    requires |rest| <= |ops|
    ensures Fold(apply, acc, rest, ops) == Fold(apply, acc, rest, ops[..|rest|])
    decreases |rest|
  {
    if |rest| > 0 {
      assert ops[..|rest|][1..] == ops[1..][..|rest| - 1];
      FoldPrefix(apply, apply(acc, ops[0], rest[0]), rest[1..], ops[1..]);
    }
  }

  /** On `+` and `*` the two challenges evaluate alike. */
  lemma {:induction false} FoldAgrees(acc: nat, rest: seq<nat>, ops: seq<Op>)
    requires |rest| <= |ops| && PlusTimesOnly(ops)
    ensures Fold(Apply1, acc, rest, ops) == Fold(Apply2, acc, rest, ops)
    decreases |rest|
  {
    if |rest| > 0 {
      FoldAgrees(Apply1(acc, ops[0], rest[0]), rest[1..], ops[1..]);
    }
  }

  // ---------------------------------------------------------------------
  // checkAllCombinations

  /** An operator sequence for the `|numbers| - 1` gaps that challenge 1
      accepts. */
  predicate Accepts1(numbers: seq<nat>, total: nat, ops: seq<Op>)
    requires |numbers| >= 1
  {
    |ops| == |numbers| - 1 && PlusTimesOnly(ops) && SumOfExpression1(numbers, ops) == total
  }

  predicate Accepts2(numbers: seq<nat>, total: nat, ops: seq<Op>)
    requires |numbers| >= 1
  {
    |ops| == |numbers| - 1 && SumOfExpression2(numbers, ops) == total
  }

  ghost predicate Solvable1(numbers: seq<nat>, total: nat)
    requires |numbers| >= 1
  {
    exists ops: seq<Op> :: Accepts1(numbers, total, ops)
  }

  ghost predicate Solvable2(numbers: seq<nat>, total: nat)
    requires |numbers| >= 1
  {
    exists ops: seq<Op> :: Accepts2(numbers, total, ops)
  }

  /** The operators of a seed, cut to the gaps they fill, are accepted when
      the seed's sum hits the total. */
  lemma SeedWitness1(numbers: seq<nat>, seed: nat)
    requires |numbers| >= 1
    ensures Solvable1(numbers, SumOfExpression1(numbers, PlusAndMultiplyCombinations(|numbers| - 1, seed)))
  {
    var total := SumOfExpression1(numbers, PlusAndMultiplyCombinations(|numbers| - 1, seed));
    var ops := PlusAndMultiplyCombinations(|numbers| - 1, seed);
    var cut := ops[..|numbers| - 1];
    FoldPrefix(Apply1, numbers[0], numbers[1..], ops);
    assert Accepts1(numbers, total, cut);
  }

  lemma SeedWitness2(numbers: seq<nat>, seed: nat)
    requires |numbers| >= 1
    ensures Solvable2(numbers, SumOfExpression2(numbers, OperatorCombinations(|numbers| - 1, seed)))
  {
    var total := SumOfExpression2(numbers, OperatorCombinations(|numbers| - 1, seed));
    var ops := OperatorCombinations(|numbers| - 1, seed);
    var cut := ops[..|numbers| - 1];
    FoldPrefix(Apply2, numbers[0], numbers[1..], ops);
    assert Accepts2(numbers, total, cut);
  }

  /** Every `+`/`*` sequence for the gaps is produced by some seed below
      `2^(|numbers| - 1)` and evaluates as that seed's operators do. */
  lemma EveryOpsHasSeed1(numbers: seq<nat>, ops: seq<Op>) returns (seed: nat)
    requires |numbers| >= 1 && |ops| == |numbers| - 1 && PlusTimesOnly(ops)
    ensures seed < Power(2, |ops|)
    ensures SumOfExpression1(numbers, PlusAndMultiplyCombinations(|ops|, seed)) == SumOfExpression1(numbers, ops)
  {
    if |ops| == 0 {
      seed := 0;
    } else {
      var ds := seq(|ops|, i requires 0 <= i < |ops| => OpDigit(ops[i]));
      seed := FromDigits(ds, 2);
      SeedOfDigits(ds, 2);
      assert PlusAndMultiplyCombinations(|ops|, seed) == ops;
    }
  }

  lemma EveryOpsHasSeed2(numbers: seq<nat>, ops: seq<Op>) returns (seed: nat)
    requires |numbers| >= 1 && |ops| == |numbers| - 1
    ensures seed < Power(3, |ops|)
    ensures SumOfExpression2(numbers, OperatorCombinations(|ops|, seed)) == SumOfExpression2(numbers, ops)
  {
    if |ops| == 0 {
      seed := 0;
    } else {
      var ds := seq(|ops|, i requires 0 <= i < |ops| => OpDigit(ops[i]));
      seed := FromDigits(ds, 3);
      SeedOfDigits(ds, 3);
      assert OperatorCombinations(|ops|, seed) == ops;
    }
  }

  /** What the operators of one seed make of the numbers. */
  function SeedSum1(numbers: seq<nat>, seed: nat): nat
    requires |numbers| >= 1
  {
    SumOfExpression1(numbers, PlusAndMultiplyCombinations(|numbers| - 1, seed))
  }

  /** When no seed's operators hit the total, no operator sequence does. */
  lemma NoSeedNoSolution1(numbers: seq<nat>, total: nat)
    requires |numbers| >= 1
    requires forall s: nat :: s < Power(2, |numbers| - 1) ==> SeedSum1(numbers, s) != total
    ensures !Solvable1(numbers, total)
  {
    forall ops | |ops| == |numbers| - 1 && PlusTimesOnly(ops)
      ensures SumOfExpression1(numbers, ops) != total
    {
      var s := EveryOpsHasSeed1(numbers, ops);
      assert SeedSum1(numbers, s) == SumOfExpression1(numbers, ops);
    }
  }

  /** The loop of checkAllCombinations: the seeds `0 .. bound - 1` in turn,
      stopping at the first whose sum `f(seed)` is the target. */
  method FirstHit(f: nat -> nat, bound: nat, target: nat) returns (hit: Option<nat>)
    ensures hit.Some? ==> hit.value < bound && f(hit.value) == target
    ensures hit.Some? ==> forall s :: 0 <= s < hit.value ==> f(s) != target
    ensures hit.None? ==> forall s :: 0 <= s < bound ==> f(s) != target
  {
    for seed := 0 to bound
      invariant forall s :: 0 <= s < seed ==> f(s) != target
    {
      if f(seed) == target {
        return Some(seed);
      }
    }
    return None;
  }

  /** checkAllCombinations of challenge 1: true iff some `+`/`*` sequence
      makes the numbers evaluate to `total`. */
  method CheckAllCombinations1(numbers: seq<nat>, total: nat) returns (found: bool)
    requires |numbers| >= 1
    ensures found <==> Solvable1(numbers, total)
  {
    var sum := s => SeedSum1(numbers, s);
    var bound := Power(2, |numbers| - 1);
    var hit := FirstHit(sum, bound, total);
    if hit.Some? {
      SeedWitness1(numbers, hit.value);
      assert sum(hit.value) == total;
      found := true;
    } else {
      forall s: nat | s < bound
        ensures SeedSum1(numbers, s) != total
      {
        assert sum(s) != total;
      }
      NoSeedNoSolution1(numbers, total);
      found := false;
    }
  }

  /** What the operators of one seed make of the numbers. */
  function SeedSum2(numbers: seq<nat>, seed: nat): nat
    requires |numbers| >= 1
  {
    SumOfExpression2(numbers, OperatorCombinations(|numbers| - 1, seed))
  }

  /** When no seed's operators hit the total, no operator sequence does. */
  lemma NoSeedNoSolution2(numbers: seq<nat>, total: nat)
    requires |numbers| >= 1
    requires forall s: nat :: s < Power(3, |numbers| - 1) ==> SeedSum2(numbers, s) != total
    ensures !Solvable2(numbers, total)
  {
    forall ops | |ops| == |numbers| - 1
      ensures SumOfExpression2(numbers, ops) != total
    {
      var s := EveryOpsHasSeed2(numbers, ops);
      assert SeedSum2(numbers, s) == SumOfExpression2(numbers, ops);
    }
  }

  /** checkAllCombinations of challenge 2, over `+`, `*` and `||`. */
  method CheckAllCombinations2(numbers: seq<nat>, total: nat) returns (found: bool)
    requires |numbers| >= 1
    ensures found <==> Solvable2(numbers, total)
  {
    var sum := s => SeedSum2(numbers, s);
    var bound := Power(3, |numbers| - 1);
    var hit := FirstHit(sum, bound, total);
    if hit.Some? {
      SeedWitness2(numbers, hit.value);
      assert sum(hit.value) == total;
      found := true;
    } else {
      forall s: nat | s < bound
        ensures SeedSum2(numbers, s) != total
      {
        assert sum(s) != total;
      }
      NoSeedNoSolution2(numbers, total);
      found := false;
    }
  }

  /** A single number is accepted exactly when it is the total. */
  lemma SingleNumber(n: nat, total: nat)
    ensures Solvable1([n], total) <==> n == total
    ensures Solvable2([n], total) <==> n == total
  {
    assert Accepts1([n], total, []) <==> n == total;
    assert Accepts2([n], total, []) <==> n == total;
  }

  /** Challenge 2 accepts whatever challenge 1 accepts. */
  lemma Challenge1ImpliesChallenge2(numbers: seq<nat>, total: nat)
    requires |numbers| >= 1 && Solvable1(numbers, total)
    ensures Solvable2(numbers, total)
  {
    var ops: seq<Op> :| Accepts1(numbers, total, ops);
    FoldAgrees(numbers[0], numbers[1..], ops);
    assert Accepts2(numbers, total, ops);
  }
}
