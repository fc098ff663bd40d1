/** Day 11: a line of numbered stones changes on every blink. A 0 becomes 1,
    a number with an even count of digits splits into its two halves, and any
    other number is multiplied by 2024. Challenge 1 evolves the whole line;
    challenge 2 counts the stones one original stone turns into, caching the
    counts per stone and number of blinks. */
module Stones {
  import opened Seqs
  import opened Text
  import opened Numbers

  const Factor: nat := 2024

  // ---------------------------------------------------------------------
  // evolveStone

  lemma DigitSlices(s: string, k: nat)
    requires IsDigits(s) && k <= |s|
    ensures IsDigits(s[..k]) && IsDigits(s[k..])
  {
    assert forall i :: 0 <= i < k ==> s[..k][i] == s[i];
    assert forall i :: 0 <= i < |s| - k ==> s[k..][i] == s[k + i];
  }

  /** The first half of the digits of `${n}`, read back with `Number`. */
  function FirstHalf(n: nat): nat
  {
    var s := NatToString(n);
    DigitSlices(s, |s| / 2);
    ParseNat(s[..|s| / 2])
  }

  /** The second half of the digits of `${n}`, read back with `Number`. */
  function SecondHalf(n: nat): nat
  {
    var s := NatToString(n);
    DigitSlices(s, |s| / 2);
    ParseNat(s[|s| / 2..])
  }

  /** The number of decimal digits of `n`. */
  function DigitCount(n: nat): nat
  {
    |NatToString(n)|
  }

  /** evolveStone, and the body of challenge 1's `reduce`: the stones one
      stone becomes on a blink. */
  function EvolveStone(n: nat): (r: seq<nat>)
    ensures 1 <= |r| <= 2
  {
    if n == 0 then [1]
    else if DigitCount(n) % 2 == 0 then [FirstHalf(n), SecondHalf(n)]
    else [n * Factor]
  }

  /** Cutting the digits of `s` after `k` of them splits its value into a
      quotient and a remainder by `10^(|s| - k)`. */
  lemma CutDigits(s: string, k: nat)
    requires IsDigits(s) && k <= |s|
    ensures IsDigits(s[..k]) && IsDigits(s[k..])
    ensures ParseNat(s[..k]) == ParseNat(s) / Pow10(|s| - k)
    ensures ParseNat(s[k..]) == ParseNat(s) % Pow10(|s| - k)
    ensures ParseNat(s) == ParseNat(s[..k]) * Pow10(|s| - k) + ParseNat(s[k..])
  {
    DigitSlices(s, k);
    var a, b := s[..k], s[k..];
    assert s == a + b;
    ParseNatAppend(a, b);
    QuotientRemainder(ParseNat(s), ParseNat(a), ParseNat(b), Pow10(|b|));
  }

  lemma QuotientRemainder(v: nat, q: nat, r: nat, p: nat)
    requires r < p && v == q * p + r
    ensures q == v / p && r == v % p
  {
    DivModUnique(q, r, p, q * p + r);
  }

  /** The halves in arithmetic terms: with `h` half the digit count, the first
      half is `n / 10^h` and the second `n % 10^h`. */
  lemma HalvesArithmetic(n: nat)
    requires DigitCount(n) % 2 == 0
    ensures FirstHalf(n) == n / Pow10(DigitCount(n) / 2)
    ensures SecondHalf(n) == n % Pow10(DigitCount(n) / 2)
    ensures n == FirstHalf(n) * Pow10(DigitCount(n) / 2) + SecondHalf(n)
    ensures SecondHalf(n) < Pow10(DigitCount(n) / 2)
  {
    var s := NatToString(n);
    CutDigits(s, |s| / 2);
    ParseNatToString(n);
  }

  /** The split is lossless: `left * 10^h + right == n`; the left half has
      exactly `h` digits and the right half fewer than `h + 1` (its leading
      zeros are dropped). */
  lemma SplitRoundTrip(n: nat)
    requires n > 0 && DigitCount(n) % 2 == 0
    ensures var h := DigitCount(n) / 2;
            && FirstHalf(n) * Pow10(h) + SecondHalf(n) == n
            && Pow10(h - 1) <= FirstHalf(n) < Pow10(h)
            && SecondHalf(n) < Pow10(h)
  {
    var d := DigitCount(n);
    var h := d / 2;
    HalvesArithmetic(n);
    NatToStringLength(n);
    assert d == (h - 1) + 1 + h;
    Pow10Add(h, h);
    Pow10Add(h - 1, h);
    HeadBounds(n, FirstHalf(n), SecondHalf(n), Pow10(h), Pow10(h - 1));
  }

  /** Arithmetic behind `SplitRoundTrip`: a number of `2h` digits divided by
      `10^h` leaves a quotient of exactly `h` digits. */
  lemma HeadBounds(n: int, q: int, r: int, p: int, p1: int)
    requires n == q * p + r && 0 <= r < p && p1 >= 1
    requires p1 * p <= n < p * p
    ensures p1 <= q < p
  {
    if q >= p {
      MulMono(p, q, p);
    }
    if q < p1 {
      MulMono(q + 1, p1, p);
    }
  }

  /** The rule in arithmetic terms. */
  lemma EvolveStoneRule(n: nat)
    ensures n == 0 ==> EvolveStone(n) == [1]
    ensures n > 0 && DigitCount(n) % 2 == 0 ==>
              EvolveStone(n) == [n / Pow10(DigitCount(n) / 2), n % Pow10(DigitCount(n) / 2)]
    ensures n > 0 && DigitCount(n) % 2 == 1 ==> EvolveStone(n) == [n * Factor]
  {
    if n > 0 && DigitCount(n) % 2 == 0 {
      HalvesArithmetic(n);
    }
  }

  // ---------------------------------------------------------------------
  // evolveStoneLine and evolveStoneLineNTimes
  //
  // The line operations take the per-stone rule as a function value, used
  // with `EvolveStone`; none of them looks inside the rule.

  /** evolveStoneLine: each stone's successors under `rule`, pushed in order. */
  function EvolveLine(rule: nat -> seq<nat>, stones: seq<nat>): seq<nat>
  {
    if |stones| == 0 then []
    else EvolveLine(rule, stones[..|stones| - 1]) + rule(stones[|stones| - 1])
  }

  /** A blink acts on each stone independently and keeps the line's order. */
  lemma {:induction false} EvolveLineAppend(rule: nat -> seq<nat>, a: seq<nat>, b: seq<nat>)
    ensures EvolveLine(rule, a + b) == EvolveLine(rule, a) + EvolveLine(rule, b)
    decreases |b|
  {
    if |b| == 0 {
      assert a + b == a;
    } else {
      var n := |b| - 1;
      assert (a + b)[..|a + b| - 1] == a + b[..n];
      assert (a + b)[|a + b| - 1] == b[n];
      EvolveLineAppend(rule, a, b[..n]);
    }
  }

  lemma EvolveLineOne(rule: nat -> seq<nat>, n: nat)
    ensures EvolveLine(rule, [n]) == rule(n)
  {
    assert [n][..0] == [];
  }

  /** A rule that turns every stone into one or two stones. */
  ghost predicate OneOrTwo(rule: nat -> seq<nat>)
  {
    forall n: nat :: 1 <= |rule(n)| <= 2
  }

  lemma EvolveStoneOneOrTwo()
    ensures OneOrTwo(EvolveStone)
  {
    forall n: nat ensures 1 <= |EvolveStone(n)| <= 2 {
    }
  }

  /** Every stone becomes one or two, so a blink never shortens the line and
      at most doubles it. */
  lemma {:induction false} EvolveLineLength(stones: seq<nat>)
    ensures |stones| <= |EvolveLine(EvolveStone, stones)| <= 2 * |stones|
  {
    EvolveStoneOneOrTwo();
    LineLength(EvolveStone, stones);
  }

  lemma {:induction false} LineLength(rule: nat -> seq<nat>, stones: seq<nat>)
    requires OneOrTwo(rule)
    ensures |stones| <= |EvolveLine(rule, stones)| <= 2 * |stones|
  {
    if |stones| > 0 {
      LineLength(rule, stones[..|stones| - 1]);
      assert 1 <= |rule(stones[|stones| - 1])| <= 2;
    }
  }

  /** evolveStoneLineNTimes: `times` blinks, as a fold over an array of that
      length. */
  function EvolveLineNTimes(rule: nat -> seq<nat>, stones: seq<nat>, times: nat): seq<nat>
  {
    if times == 0 then stones else EvolveLine(rule, EvolveLineNTimes(rule, stones, times - 1))
  }

  /** Blinking `times` times also acts on each stone independently. */
  lemma {:induction false} NTimesAppend(rule: nat -> seq<nat>, a: seq<nat>, b: seq<nat>, times: nat)
    ensures EvolveLineNTimes(rule, a + b, times)
         == EvolveLineNTimes(rule, a, times) + EvolveLineNTimes(rule, b, times)
  {
    if times > 0 {
      NTimesAppend(rule, a, b, times - 1);
      EvolveLineAppend(rule, EvolveLineNTimes(rule, a, times - 1), EvolveLineNTimes(rule, b, times - 1));
    }
  }

  /** The first blink, then the others. */
  lemma {:induction false} NTimesFirst(rule: nat -> seq<nat>, stones: seq<nat>, times: nat)
    ensures EvolveLineNTimes(rule, stones, times + 1) == EvolveLineNTimes(rule, EvolveLine(rule, stones), times)
  {
    if times > 0 {
      NTimesFirst(rule, stones, times - 1);
    }
  }

  /** `times` blinks of the puzzle's rule never shorten the line. */
  lemma {:induction false} NTimesLength(stones: seq<nat>, times: nat)
    ensures |stones| <= |EvolveLineNTimes(EvolveStone, stones, times)|
  {
    if times > 0 {
      NTimesLength(stones, times - 1);
      EvolveLineLength(EvolveLineNTimes(EvolveStone, stones, times - 1));
    }
  }

  // ---------------------------------------------------------------------
  // Challenge 2: counting without building the line

  /** The uncached recursion of challenge 2's evolveStoneLineNTimes: one blink
      counts the stone's successors, more blinks add up the counts of its
      successors. With `times` 0 the source recurses without end. */
  function StoneCount(rule: nat -> seq<nat>, stone: nat, times: nat): nat
    requires times >= 1
    decreases times, 0
  {
    if times == 1 then |rule(stone)| else CountAll(rule, rule(stone), times - 1)
  }

  /** The `map` and `reduce` over a line: the sum of the stones' counts. */
  function CountAll(rule: nat -> seq<nat>, stones: seq<nat>, times: nat): nat
    requires times >= 1
    decreases times, 1, |stones|
  {
    if |stones| == 0 then 0
    else CountAll(rule, stones[..|stones| - 1], times) + StoneCount(rule, stones[|stones| - 1], times)
  }

  /** The count is the length of challenge 1's line after `times` blinks of
      the single stone. */
  lemma {:induction false} StoneCountIsLength(rule: nat -> seq<nat>, stone: nat, times: nat)
    requires times >= 1
    ensures StoneCount(rule, stone, times) == |EvolveLineNTimes(rule, [stone], times)|
    decreases times, 0
  {
    EvolveLineOne(rule, stone);
    NTimesFirst(rule, [stone], times - 1);
    if times > 1 {
      CountAllIsLength(rule, rule(stone), times - 1);
    }
  }

  /** Summed counts are the length of the whole line after `times` blinks. */
  lemma {:induction false} CountAllIsLength(rule: nat -> seq<nat>, stones: seq<nat>, times: nat)
    requires times >= 1
    ensures CountAll(rule, stones, times) == |EvolveLineNTimes(rule, stones, times)|
    decreases times, 1, |stones|
  {
    if |stones| == 0 {
      NTimesEmpty(rule, times);
    } else {
      var n := |stones| - 1;
      CountAllIsLength(rule, stones[..n], times);
      StoneCountIsLength(rule, stones[n], times);
      assert stones == stones[..n] + [stones[n]];
      NTimesAppend(rule, stones[..n], [stones[n]], times);
    }
  }

  lemma {:induction false} NTimesEmpty(rule: nat -> seq<nat>, times: nat)
    ensures EvolveLineNTimes(rule, [], times) == []
  {
    if times > 0 {
      NTimesEmpty(rule, times - 1);
    }
  }

  /** Counts under the puzzle's rule are at least 1, and one blink counts the
      stone's successors. */
  lemma StoneCountBasics(stone: nat, times: nat)
    requires times >= 1
    ensures StoneCount(EvolveStone, stone, times) >= 1
    ensures times == 1 ==> StoneCount(EvolveStone, stone, times) == |EvolveStone(stone)|
  {
    StoneCountIsLength(EvolveStone, stone, times);
    NTimesLength([stone], times);
  }

  /** Cache entries keyed by stone and blinks (the source's key string
      `${stone}-${times}` names each such pair once). */
  type Cache = map<(nat, nat), nat>

  /** Every cached value is the count it stands for. */
  predicate CacheValid(cache: Cache)
  {
    forall key :: key in cache ==> key.1 >= 1 && cache[key] == StoneCount(EvolveStone, key.0, key.1)
  }

  /** Challenge 2's memoised evolveStoneLineNTimes, with the cache threaded
      through. `if (cache[key])` reads a missing key as `undefined`; a stored
      count is never 0, so the test is a presence test. */
  method CountStones(stone: nat, times: nat, cache: Cache) returns (n: nat, cache': Cache)
    requires times >= 1 && CacheValid(cache)
    ensures n == StoneCount(EvolveStone, stone, times)
    ensures CacheValid(cache') && (stone, times) in cache'
    ensures forall key :: key in cache ==> key in cache'
    decreases times, 0
  {
    var key := (stone, times);
    if key in cache && cache[key] != 0 {
      return cache[key], cache;
    }
    var next := EvolveStone(stone);
    if times == 1 {
      n := |next|;
      cache' := cache[key := n];
    } else {
      n, cache' := CountNext(next, times - 1, cache);
      cache' := cache'[key := n];
    }
  }

  /** The counts of a stone's successors, summed, sharing the cache. */
  method CountNext(next: seq<nat>, times: nat, cache: Cache) returns (n: nat, cache': Cache)
    requires times >= 1 && CacheValid(cache)
    ensures n == CountAll(EvolveStone, next, times)
    ensures CacheValid(cache')
    ensures forall key :: key in cache ==> key in cache'
    decreases times, 1
  {
    cache' := cache;
    n := 0;
    var i := 0;
    while i < |next|
      invariant 0 <= i <= |next|
      invariant CacheValid(cache') && forall k :: k in cache ==> k in cache'
      invariant n == CountAll(EvolveStone, next[..i], times)
    {
      var m;
      m, cache' := CountStones(next[i], times, cache');
      assert next[..i + 1][..i] == next[..i];
      n := n + m;
      i := i + 1;
    }
    assert next[..i] == next;
  }

  /** The `main` sum over the line, sharing one cache: the length of the line
      after `times` blinks. */
  method CountLine(stones: seq<nat>, times: nat) returns (total: nat)
    requires times >= 1
    ensures total == |EvolveLineNTimes(EvolveStone, stones, times)|
  {
    var cache;
    total, cache := CountNext(stones, times, map[]);
    CountAllIsLength(EvolveStone, stones, times);
  }
}
