/** Day 3: scan corrupted memory for `mul(<digits>,<digits>)` instructions
    and add up their products. Challenge 2 drops the instructions that a
    preceding `don't()` switched off, until a later `do()` switches them on. */
module MulScanner {
  import opened Options
  import opened Text

  // ---------------------------------------------------------------------
  // The pattern /mul\(\d+,\d+\)/

  /** Number of consecutive digits of `s` from index `i` on. */
  function DigitRun(s: string, i: nat): (n: nat)
    requires i <= |s|
    ensures i + n <= |s|
    decreases |s| - i
  {
    if i < |s| && IsDigit(s[i]) then 1 + DigitRun(s, i + 1) else 0
  }

  /** The run is all digits and is maximal. */
  lemma {:induction false} DigitRunIsMaximal(s: string, i: nat)
    requires i <= |s|
    ensures forall k :: i <= k < i + DigitRun(s, i) ==> IsDigit(s[k])
    ensures i + DigitRun(s, i) < |s| ==> !IsDigit(s[i + DigitRun(s, i)])
    decreases |s| - i
  {
    if i < |s| && IsDigit(s[i]) {
      DigitRunIsMaximal(s, i + 1);
    }
  }

  /** A run of exactly `n` digits from `i` on, ended by a non-digit or the
      end of the text, is what `DigitRun` measures. */
  lemma {:induction false} DigitRunExact(s: string, i: nat, n: nat)
    requires i + n <= |s|
    requires forall k :: i <= k < i + n ==> IsDigit(s[k])
    requires i + n < |s| ==> !IsDigit(s[i + n])
    ensures DigitRun(s, i) == n
    decreases n
  {
    if n > 0 {
      DigitRunExact(s, i + 1, n - 1);
    }
  }

  /** Where a left-to-right reading of the pattern stands: `Literal(n)` has
      read the first `n` characters of `mul(`; a digit stage has read at
      least one digit of its run when `seen` holds. */
  datatype Stage = Literal(n: nat) | FirstDigits(seen: bool) | SecondDigits(seen: bool)

  /** Reading `s` from index `k` on in stage `st`: the index just past the
      closing `)` when the pattern completes, 0 when it fails. */
  function MatchEnd(s: string, k: nat, st: Stage): (e: nat)
    requires k <= |s|
    ensures e == 0 || k < e <= |s|
    decreases |s| - k
  {
    if k == |s| then 0
    else
      var c := s[k];
      match st
      case Literal(n) =>
        if n < 4 && c == "mul("[n] then
          MatchEnd(s, k + 1, if n == 3 then FirstDigits(false) else Literal(n + 1))
        else 0
      case FirstDigits(seen) =>
        if IsDigit(c) then MatchEnd(s, k + 1, FirstDigits(true))
        else if seen && c == ',' then MatchEnd(s, k + 1, SecondDigits(false))
        else 0
      case SecondDigits(seen) =>
        if IsDigit(c) then MatchEnd(s, k + 1, SecondDigits(true))
        else if seen && c == ')' then k + 1
        else 0
  }

  /** Length of the instruction starting at index `i`, or 0 when none starts
      there. */
  function MatchLen(s: string, i: nat): (n: nat)
    requires i <= |s|
    ensures n > 0 ==> i + n <= |s|
  {
    var e := MatchEnd(s, i, Literal(0));
    if e == 0 then 0 else e - i
  }

  /** The text `mul(` starts at index `i`. */
  predicate MulPrefixAt(s: string, i: nat)
  {
    i + 4 <= |s| && s[i] == 'm' && s[i + 1] == 'u' && s[i + 2] == 'l' && s[i + 3] == '('
  }

  /** The same length in terms of digit runs: `\d+` is greedy and a digit is
      never `,` or `)`, so the longest runs are the only candidates. */
  function RunsMatchLen(s: string, i: nat): (n: nat)
    requires i <= |s|
    ensures n > 0 ==> i + n <= |s|
  {
    if !MulPrefixAt(s, i) then 0
    else
      var e := RunsEnd(s, i + 4);
      if e == 0 then 0 else e - i
  }

  /** After `mul(`: a digit run, `,`, a digit run and `)`; the index just past
      the `)`, or 0. */
  function RunsEnd(s: string, j: nat): (e: nat)
    requires j <= |s|
    ensures e == 0 || j < e <= |s|
  {
    var c := j + DigitRun(s, j);
    if c == j || c >= |s| || s[c] != ',' then 0
    else
      var k := c + 1 + DigitRun(s, c + 1);
      if k == c + 1 || k >= |s| || s[k] != ')' then 0
      else k + 1
  }

  lemma {:induction false} SecondRunEnd(s: string, k: nat)
    requires k <= |s|
    ensures MatchEnd(s, k, SecondDigits(true)) ==
              var e := k + DigitRun(s, k); if e < |s| && s[e] == ')' then e + 1 else 0
    decreases |s| - k
  {
    if k < |s| && IsDigit(s[k]) {
      SecondRunEnd(s, k + 1);
    }
  }

  lemma {:induction false} FirstRunEnd(s: string, k: nat)
    requires k <= |s|
    ensures MatchEnd(s, k, FirstDigits(true)) ==
              var e := k + DigitRun(s, k);
              if e < |s| && s[e] == ',' then MatchEnd(s, e + 1, SecondDigits(false)) else 0
    decreases |s| - k
  {
    if k < |s| && IsDigit(s[k]) {
      FirstRunEnd(s, k + 1);
    }
  }

  /** The digit stages read what `RunsEnd` describes. */
  lemma DigitStages(s: string, j: nat)
    requires j <= |s|
    ensures MatchEnd(s, j, FirstDigits(false)) == RunsEnd(s, j)
  {
    if j < |s| && IsDigit(s[j]) {
      FirstRunEnd(s, j + 1);
      var c := j + DigitRun(s, j);
      if c < |s| && s[c] == ',' {
        if c + 1 < |s| && IsDigit(s[c + 1]) {
          SecondRunEnd(s, c + 2);
        }
      }
    }
  }

  /** The literal stages read `mul(`. */
  lemma LiteralStages(s: string, i: nat)
    requires i <= |s|
    ensures MatchEnd(s, i, Literal(0)) ==
              if MulPrefixAt(s, i) then MatchEnd(s, i + 4, FirstDigits(false)) else 0
  {
    var lit := "mul(";
    assert lit[0] == 'm' && lit[1] == 'u' && lit[2] == 'l' && lit[3] == '(';
    if i < |s| && s[i] == 'm' {
      assert MatchEnd(s, i, Literal(0)) == MatchEnd(s, i + 1, Literal(1));
      if i + 1 < |s| && s[i + 1] == 'u' {
        assert MatchEnd(s, i + 1, Literal(1)) == MatchEnd(s, i + 2, Literal(2));
        if i + 2 < |s| && s[i + 2] == 'l' {
          assert MatchEnd(s, i + 2, Literal(2)) == MatchEnd(s, i + 3, Literal(3));
        }
      }
    }
  }

  /** The stage-by-stage reading agrees with the reading by digit runs. */
  lemma MatchLenByRuns(s: string, i: nat)
    requires i <= |s|
    ensures MatchLen(s, i) == RunsMatchLen(s, i)
  {
    LiteralStages(s, i);
    if MulPrefixAt(s, i) {
      DigitStages(s, i + 4);
    }
  }

  /** The two numbers of an instruction, as written. */
  datatype Operands = Operands(left: string, right: string)

  predicate WellFormedOperands(o: Operands)
  {
    |o.left| >= 1 && IsDigits(o.left) && |o.right| >= 1 && IsDigits(o.right)
  }

  /** The instruction `mul(left,right)`. */
  function InstructionText(o: Operands): string
  {
    "mul(" + o.left + "," + o.right + ")"
  }

  /** The layout of `mul(a,b)`. */
  lemma InstructionTextShape(o: Operands)
    ensures |InstructionText(o)| == 6 + |o.left| + |o.right|
    ensures InstructionText(o)[0] == 'm' && InstructionText(o)[1] == 'u'
    ensures InstructionText(o)[2] == 'l' && InstructionText(o)[3] == '('
    ensures forall j :: 4 <= j < 4 + |o.left| ==> InstructionText(o)[j] == o.left[j - 4]
    ensures InstructionText(o)[4 + |o.left|] == ','
    ensures forall j :: 5 + |o.left| <= j < 5 + |o.left| + |o.right| ==>
              InstructionText(o)[j] == o.right[j - 5 - |o.left|]
    ensures InstructionText(o)[5 + |o.left| + |o.right|] == ')'
  {
  }

  /** A slice equal to `t`, read character by character. */
  lemma SliceChars(s: string, i: nat, t: string)
    requires i + |t| <= |s| && s[i..i + |t|] == t
    ensures forall j :: i <= j < i + |t| ==> s[j] == t[j - i]
  {
    forall j | i <= j < i + |t| ensures s[j] == t[j - i] {
      assert s[i..i + |t|][j - i] == s[j];
    }
  }

  /** The operands of the instruction found at `i`: its two digit runs. */
  function OperandsAt(s: string, i: nat): Operands
    requires i <= |s| && RunsMatchLen(s, i) > 0
  {
    var j := i + 4 + DigitRun(s, i + 4);
    var k := j + 1 + DigitRun(s, j + 1);
    Operands(s[i + 4..j], s[j + 1..k])
  }

  /** Cutting a slice in two. */
  lemma SliceSplit(s: string, a: nat, b: nat, c: nat)
    requires a <= b <= c <= |s|
    ensures s[a..c] == s[a..b] + s[b..c]
  {
  }

  /** The characters `mul(` at `i`, as a slice. */
  lemma MulPrefixSlice(s: string, i: nat)
    requires i + 4 <= |s| && MulPrefixAt(s, i)
    ensures s[i..i + 4] == "mul("
  {
  }

  /** What the reader finds at `i` is `mul(a,b)` for the operands there. */
  lemma OperandsAtSound(s: string, i: nat)
    requires i <= |s| && MatchLen(s, i) > 0
    ensures RunsMatchLen(s, i) > 0
    ensures WellFormedOperands(OperandsAt(s, i))
    ensures s[i..i + MatchLen(s, i)] == InstructionText(OperandsAt(s, i))
  {
    MatchLenByRuns(s, i);
    OperandsAtDigits(s, i);
    OperandsAtText(s, i);
  }

  /** The operands found at `i` are two non-empty digit strings. */
  lemma OperandsAtDigits(s: string, i: nat)
    requires i <= |s| && RunsMatchLen(s, i) > 0
    ensures WellFormedOperands(OperandsAt(s, i))
  {
    var j := i + 4 + DigitRun(s, i + 4);
    DigitRunIsMaximal(s, i + 4);
    DigitRunIsMaximal(s, j + 1);
    var o := OperandsAt(s, i);
    forall n | 0 <= n < |o.left| ensures IsDigit(o.left[n]) {
      assert o.left[n] == s[i + 4 + n];
    }
    forall n | 0 <= n < |o.right| ensures IsDigit(o.right[n]) {
      assert o.right[n] == s[j + 1 + n];
    }
  }

  /** The text matched at `i` is the instruction of the operands there. */
  lemma OperandsAtText(s: string, i: nat)
    requires i <= |s| && RunsMatchLen(s, i) > 0
    ensures s[i..i + RunsMatchLen(s, i)] == InstructionText(OperandsAt(s, i))
  {
    var j := i + 4 + DigitRun(s, i + 4);
    var k := j + 1 + DigitRun(s, j + 1);
    assert i + RunsMatchLen(s, i) == k + 1;
    var o := OperandsAt(s, i);
    MulPrefixSlice(s, i);
    SliceFivePieces(s, i, j, k);
    SliceOne(s, j);
    SliceOne(s, k);
    calc {
      s[i..i + RunsMatchLen(s, i)];
      s[i..k + 1];
      s[i..i + 4] + s[i + 4..j] + s[j..j + 1] + s[j + 1..k] + s[k..k + 1];
      "mul(" + o.left + "," + o.right + ")";
    }
  }

  lemma SliceOne(s: string, j: nat)
    requires j < |s|
    ensures s[j..j + 1] == [s[j]]
  {
  }

  /** The slice of an instruction, cut at its four landmarks. */
  lemma SliceFivePieces(s: string, i: nat, j: nat, k: nat)
    requires i + 4 <= j < k < |s|
    ensures s[i..k + 1] == s[i..i + 4] + s[i + 4..j] + s[j..j + 1] + s[j + 1..k] + s[k..k + 1]
  {
    SliceSplit(s, i, k, k + 1);
    SliceSplit(s, i, j + 1, k);
    SliceSplit(s, i, j, j + 1);
    SliceSplit(s, i, i + 4, j);
  }

  /** Conversely, every `mul(a,b)` in the text is found, in full. */
  lemma MatchLenComplete(s: string, i: nat, o: Operands)
    requires WellFormedOperands(o)
    requires i + |InstructionText(o)| <= |s| && s[i..i + |InstructionText(o)|] == InstructionText(o)
    ensures MatchLen(s, i) == RunsMatchLen(s, i) == |InstructionText(o)|
    ensures OperandsAt(s, i) == o
  {
    var t := InstructionText(o);
    var l, r := |o.left|, |o.right|;
    MatchLenByRuns(s, i);
    SliceChars(s, i, t);
    InstructionTextShape(o);
    InstructionPrefix(s, i, o);
    InstructionDigitRuns(s, i, o);
    forall k | 0 <= k < l ensures s[i + 4..i + 4 + l][k] == o.left[k] {
      assert s[i + 4 + k] == t[4 + k];
    }
    forall k | 0 <= k < r ensures s[i + 5 + l..i + 5 + l + r][k] == o.right[k] {
      assert s[i + 5 + l + k] == t[5 + l + k];
    }
  }

  lemma InstructionPrefix(s: string, i: nat, o: Operands)
    requires i + |InstructionText(o)| <= |s| && s[i..i + |InstructionText(o)|] == InstructionText(o)
    ensures MulPrefixAt(s, i)
  {
    var t := InstructionText(o);
    SliceChars(s, i, t);
    InstructionTextShape(o);
    assert s[i] == t[0] && s[i + 1] == t[1] && s[i + 2] == t[2] && s[i + 3] == t[3];
  }

  lemma InstructionDigitRuns(s: string, i: nat, o: Operands)
    requires WellFormedOperands(o)
    requires i + |InstructionText(o)| <= |s| && s[i..i + |InstructionText(o)|] == InstructionText(o)
    ensures DigitRun(s, i + 4) == |o.left| && s[i + 4 + |o.left|] == ','
    ensures DigitRun(s, i + 5 + |o.left|) == |o.right| && s[i + 5 + |o.left| + |o.right|] == ')'
    ensures RunsEnd(s, i + 4) == i + |InstructionText(o)|
  {
    var t := InstructionText(o);
    var l, r := |o.left|, |o.right|;
    SliceChars(s, i, t);
    InstructionTextShape(o);
    forall k | i + 4 <= k < i + 4 + l ensures IsDigit(s[k]) {
      assert s[k] == t[k - i];
    }
    assert s[i + 4 + l] == t[4 + l];
    DigitRunExact(s, i + 4, l);
    forall k | i + 5 + l <= k < i + 5 + l + r ensures IsDigit(s[k]) {
      assert s[k] == t[k - i];
    }
    assert s[i + 5 + l + r] == t[5 + l + r];
    DigitRunExact(s, i + 5 + l, r);
  }

  /** Only an `m` can start an instruction. */
  lemma NotMNoMatch(s: string, i: nat)
    requires i < |s| && s[i] != 'm'
    ensures MatchLen(s, i) == 0
  {
    MatchLenByRuns(s, i);
  }

  /** No instruction starts inside another one: its inner characters are
      never an `m`. */
  lemma NoMatchInside(s: string, i: nat, j: nat)
    requires i <= |s| && MatchLen(s, i) > 0
    requires i < j < i + MatchLen(s, i)
    ensures MatchLen(s, j) == 0
  {
    OperandsAtSound(s, i);
    var o := OperandsAt(s, i);
    var t := InstructionText(o);
    SliceChars(s, i, t);
    InstructionTextShape(o);
    assert s[j] == t[j - i];
    if 4 <= j - i < 4 + |o.left| {
      assert IsDigit(o.left[j - i - 4]);
    } else if 5 + |o.left| <= j - i < 5 + |o.left| + |o.right| {
      assert IsDigit(o.right[j - i - 5 - |o.left|]);
    }
    NotMNoMatch(s, j);
  }

  // ---------------------------------------------------------------------
  // findMulInstructions (challenge 1): `matchAll` of the pattern

  /** A match: where it starts and the text it covers. */
  datatype Mul = Mul(index: nat, text: string)

  /** Left-to-right scan from `from`: take the instruction starting here and
      continue after it, or move one character on. */
  function Scan(s: string, from: nat): (ms: seq<Mul>)
    requires from <= |s|
    decreases |s| - from
  {
    if from == |s| then []
    else
      var n := MatchLen(s, from);
      if n > 0 then [Mul(from, s[from..from + n])] + Scan(s, from + n) else Scan(s, from + 1)
  }

  /** The start indices of a sequence of matches. */
  function Starts(ms: seq<Mul>): (r: set<nat>)
    ensures forall k :: 0 <= k < |ms| ==> ms[k].index in r
  {
    if |ms| == 0 then {} else {ms[0].index} + Starts(ms[1..])
  }

  lemma ScanTakesMatch(s: string, from: nat)
    requires from < |s| && MatchLen(s, from) > 0
    ensures Scan(s, from) ==
              [Mul(from, s[from..from + MatchLen(s, from)])] + Scan(s, from + MatchLen(s, from))
  {
  }

  /** The start indices the scan reports, following its steps. */
  function ScanStarts(s: string, from: nat): set<nat>
    requires from <= |s|
    decreases |s| - from
  {
    if from == |s| then {}
    else
      var n := MatchLen(s, from);
      if n > 0 then {from} + ScanStarts(s, from + n) else ScanStarts(s, from + 1)
  }

  lemma {:induction false} StartsOfScan(s: string, from: nat)
    requires from <= |s|
    ensures Starts(Scan(s, from)) == ScanStarts(s, from)
    decreases |s| - from
  {
    if from < |s| {
      var n := MatchLen(s, from);
      if n > 0 {
        StartsOfScan(s, from + n);
        ScanTakesMatch(s, from);
        var ms := Scan(s, from);
        assert ms[1..] == Scan(s, from + n);
      } else {
        StartsOfScan(s, from + 1);
      }
    }
  }

  /** The scan reports no match before `from`. */
  lemma {:induction false} ScanStartsInRange(s: string, from: nat)
    requires from <= |s|
    ensures forall i :: i in ScanStarts(s, from) ==> from <= i < |s|
    decreases |s| - from
  {
    if from < |s| {
      var n := MatchLen(s, from);
      if n > 0 {
        ScanStartsInRange(s, from + n);
      } else {
        ScanStartsInRange(s, from + 1);
      }
    }
  }

  lemma {:induction false} ScanStartsExact(s: string, from: nat)
    requires from <= |s|
    ensures forall i :: from <= i < |s| ==> (MatchLen(s, i) > 0 <==> i in ScanStarts(s, from))
    decreases |s| - from
  {
    if from < |s| {
      var n := MatchLen(s, from);
      if n > 0 {
        ScanStartsExact(s, from + n);
        ScanStartsInRange(s, from + n);
        ExactAfterMatch(s, from, ScanStarts(s, from), ScanStarts(s, from + n));
      } else {
        ScanStartsExact(s, from + 1);
        ScanStartsInRange(s, from + 1);
      }
    }
  }

  /** The scan reports a match at index `i` exactly when an instruction
      starts there, and none outside the text from `from` on. */
  lemma ScanIsExact(s: string, from: nat)
    requires from <= |s|
    ensures forall i :: i in Starts(Scan(s, from)) ==> from <= i < |s|
    ensures forall i :: from <= i < |s| ==> (MatchLen(s, i) > 0 <==> i in Starts(Scan(s, from)))
  {
    StartsOfScan(s, from);
    ScanStartsInRange(s, from);
    ScanStartsExact(s, from);
  }

  /** Taking the match at `from` and the exact starts after it gives the
      exact starts from `from` on. */
  lemma ExactAfterMatch(s: string, from: nat, here: set<nat>, later: set<nat>)
    requires from < |s| && MatchLen(s, from) > 0
    requires here == {from} + later
    requires forall i :: i in later ==> from + MatchLen(s, from) <= i
    requires forall i :: from + MatchLen(s, from) <= i < |s| ==> (MatchLen(s, i) > 0 <==> i in later)
    ensures forall i :: from <= i < |s| ==> (MatchLen(s, i) > 0 <==> i in here)
  {
    forall i | from < i < from + MatchLen(s, from)
      ensures MatchLen(s, i) == 0 && i !in later
    {
      NoMatchInside(s, from, i);
    }
  }

  /** Where no instruction starts, the scan finds nothing. */
  lemma {:induction false} NoMatchScansEmpty(s: string, from: nat)
    requires from <= |s|
    requires forall i :: from <= i < |s| ==> MatchLen(s, i) == 0
    ensures Scan(s, from) == []
    decreases |s| - from
  {
    if from < |s| {
      NoMatchScansEmpty(s, from + 1);
    }
  }

  /** `m` is what the reader finds at `m.index`: the text there, in full. */
  predicate Reported(s: string, m: Mul)
  {
    && m.index + |m.text| <= |s|
    && |m.text| > 0
    && MatchLen(s, m.index) == |m.text|
    && s[m.index..m.index + |m.text|] == m.text
  }

  /** Every reported match is a full instruction found by the reader. */
  lemma {:induction false} ScanSound(s: string, from: nat)
    requires from <= |s|
    ensures forall k :: 0 <= k < |Scan(s, from)| ==> Reported(s, Scan(s, from)[k])
    decreases |s| - from
  {
    if from < |s| {
      var n := MatchLen(s, from);
      if n > 0 {
        ScanSound(s, from + n);
        ScanTakesMatch(s, from);
        var rest := Scan(s, from + n);
        var ms := Scan(s, from);
        assert Reported(s, ms[0]);
        assert forall k :: 0 < k < |ms| ==> ms[k] == rest[k - 1];
      } else {
        ScanSound(s, from + 1);
      }
    }
  }

  /** Matches that do not overlap: each ends before the next one starts. */
  predicate Disjoint(ms: seq<Mul>)
  {
    forall a, b :: 0 <= a < b < |ms| ==> ms[a].index + |ms[a].text| <= ms[b].index
  }

  /** A match that ends before every later one starts keeps them disjoint. */
  lemma DisjointCons(m: Mul, rest: seq<Mul>)
    requires Disjoint(rest)
    requires forall k :: 0 <= k < |rest| ==> m.index + |m.text| <= rest[k].index
    ensures Disjoint([m] + rest)
  {
    var ms := [m] + rest;
    forall a, b | 0 <= a < b < |ms| ensures ms[a].index + |ms[a].text| <= ms[b].index {
      assert ms[b] == rest[b - 1];
      if a > 0 {
        assert ms[a] == rest[a - 1];
      }
    }
  }

  lemma StartsBound(ms: seq<Mul>, lo: nat)
    requires forall i :: i in Starts(ms) ==> lo <= i
    ensures forall k :: 0 <= k < |ms| ==> lo <= ms[k].index
  {
    forall k | 0 <= k < |ms| ensures lo <= ms[k].index {
      assert ms[k].index in Starts(ms);
    }
  }

  /** The matches do not overlap. */
  lemma {:induction false} ScanOrdered(s: string, from: nat)
    requires from <= |s|
    ensures Disjoint(Scan(s, from))
    decreases |s| - from
  {
    if from < |s| {
      var n := MatchLen(s, from);
      if n > 0 {
        var rest := Scan(s, from + n);
        ScanOrdered(s, from + n);
        StartsOfScan(s, from + n);
        ScanStartsInRange(s, from + n);
        StartsBound(rest, from + n);
        ScanTakesMatch(s, from);
        DisjointCons(Mul(from, s[from..from + n]), rest);
      } else {
        ScanOrdered(s, from + 1);
      }
    }
  }

  /** A reported text is `mul(a,b)` with the operands found there. */
  lemma ReportedIsInstruction(s: string, m: Mul)
    requires Reported(s, m)
    ensures RunsMatchLen(s, m.index) > 0
    ensures WellFormedOperands(OperandsAt(s, m.index))
    ensures m.text == InstructionText(OperandsAt(s, m.index))
  {
    OperandsAtSound(s, m.index);
  }

  /** Instructions found in the whole text, left to right. */
  function FindMulInstructions(s: string): seq<Mul>
  {
    Scan(s, 0)
  }

  // ---------------------------------------------------------------------
  // getNumbersFromInstruction: `match(/\d+/g)`

  /** The maximal digit runs of `s` from index `i` on, left to right. */
  function DigitRunsFrom(s: string, i: nat): seq<string>
    requires i <= |s|
    decreases |s| - i
  {
    if i == |s| then []
    else if IsDigit(s[i]) then
      var n := DigitRun(s, i);
      [s[i..i + n]] + DigitRunsFrom(s, i + n)
    else DigitRunsFrom(s, i + 1)
  }

  /** Each run is a non-empty string of digits. */
  lemma {:induction false} DigitRunsAreNumbers(s: string, i: nat)
    requires i <= |s|
    ensures forall k :: 0 <= k < |DigitRunsFrom(s, i)| ==>
              |DigitRunsFrom(s, i)[k]| >= 1 && IsDigits(DigitRunsFrom(s, i)[k])
    decreases |s| - i
  {
    if i < |s| {
      if IsDigit(s[i]) {
        var n := DigitRun(s, i);
        DigitRunIsMaximal(s, i);
        DigitRunsAreNumbers(s, i + n);
        var run := s[i..i + n];
        assert IsDigits(run) by {
          forall k | 0 <= k < n ensures IsDigit(run[k]) {
            assert run[k] == s[i + k];
          }
        }
        var runs := DigitRunsFrom(s, i);
        assert runs == [run] + DigitRunsFrom(s, i + n);
        assert forall k :: 0 < k < |runs| ==> runs[k] == DigitRunsFrom(s, i + n)[k - 1];
      } else {
        DigitRunsAreNumbers(s, i + 1);
      }
    }
  }

  /** getNumbersFromInstruction: the first two digit runs, or `[0, 0]` when
      there is none. A text with a single run would read `undefined` as its
      second number; only matched instructions are ever passed. */
  function GetNumbersFromInstruction(instruction: string): (r: (nat, nat))
    requires |DigitRunsFrom(instruction, 0)| != 1
    ensures |DigitRunsFrom(instruction, 0)| == 0 ==> r == (0, 0)
  {
    DigitRunsAreNumbers(instruction, 0);
    var runs := DigitRunsFrom(instruction, 0);
    if |runs| == 0 then (0, 0) else (ParseNat(runs[0]), ParseNat(runs[1]))
  }

  /** The digit runs of `mul(a,b)` are `a` and `b`. */
  lemma InstructionRuns(o: Operands)
    requires WellFormedOperands(o)
    ensures DigitRunsFrom(InstructionText(o), 0) == [o.left, o.right]
  {
    var t := InstructionText(o);
    var l := |o.left|;
    assert |t| == 6 + l + |o.right| && !IsDigit(t[0]) && !IsDigit(t[1]) && !IsDigit(t[2])
        && !IsDigit(t[3]) && IsDigit(t[4]) && DigitRun(t, 4) == l && t[4..4 + l] == o.left
        && !IsDigit(t[4 + l]) by {
      InstructionTextShape(o);
      DigitRunExact(t, 4, l);
    }
    RightOperandRuns(o);
    calc {
      DigitRunsFrom(t, 0);
      DigitRunsFrom(t, 1);
      DigitRunsFrom(t, 2);
      DigitRunsFrom(t, 3);
      DigitRunsFrom(t, 4);
      [o.left] + DigitRunsFrom(t, 4 + l);
      [o.left] + DigitRunsFrom(t, 5 + l);
      [o.left] + [o.right];
    }
  }

  /** After the comma of `mul(a,b)` the only digit run is `b`. */
  lemma RightOperandRuns(o: Operands)
    requires WellFormedOperands(o)
    ensures DigitRunsFrom(InstructionText(o), 5 + |o.left|) == [o.right]
  {
    var t := InstructionText(o);
    var l, r := |o.left|, |o.right|;
    assert |t| == 6 + l + r && IsDigit(t[5 + l]) && DigitRun(t, 5 + l) == r
        && t[5 + l..5 + l + r] == o.right && !IsDigit(t[5 + l + r]) by {
      InstructionTextShape(o);
      DigitRunExact(t, 5 + l, r);
    }
    calc {
      DigitRunsFrom(t, 5 + l);
      [o.right] + DigitRunsFrom(t, 5 + l + r);
      [o.right] + DigitRunsFrom(t, 6 + l + r);
      [o.right] + [];
    }
  }

  /** On `mul(a,b)` the extracted numbers are `a` and `b`. */
  lemma NumbersOfInstruction(o: Operands)
    requires WellFormedOperands(o)
    ensures |DigitRunsFrom(InstructionText(o), 0)| == 2
    ensures GetNumbersFromInstruction(InstructionText(o)) == (ParseNat(o.left), ParseNat(o.right))
  {
    InstructionRuns(o);
  }

  /** Text without a digit yields `[0, 0]`. */
  lemma NoDigitsGivesZeros(s: string)
    requires forall k :: 0 <= k < |s| ==> !IsDigit(s[k])
    ensures |DigitRunsFrom(s, 0)| == 0
    ensures GetNumbersFromInstruction(s) == (0, 0)
  {
    NoRunsFrom(s, 0);
  }

  lemma {:induction false} NoRunsFrom(s: string, i: nat)
    requires i <= |s|
    requires forall k :: i <= k < |s| ==> !IsDigit(s[k])
    ensures DigitRunsFrom(s, i) == []
    decreases |s| - i
  {
    if i < |s| {
      NoRunsFrom(s, i + 1);
    }
  }

  // ---------------------------------------------------------------------
  // mul and the total

  /** The text of a match can be read as two numbers. */
  predicate Readable(ms: seq<Mul>)
  {
    forall m :: m in ms ==> |DigitRunsFrom(m.text, 0)| != 1
  }

  /** mul: the product of the numbers of an instruction. */
  function Product(m: Mul): nat
    requires |DigitRunsFrom(m.text, 0)| != 1
  {
    var (a, b) := GetNumbersFromInstruction(m.text);
    a * b
  }

  /** Sum of the products (the `map(mul)` and `reduce(+)` of `main`). */
  function SumOfProducts(ms: seq<Mul>): nat
    requires Readable(ms)
  {
    if |ms| == 0 then 0
    else
      assert ms[0] in ms;
      assert forall m :: m in ms[1..] ==> m in ms;
      Product(ms[0]) + SumOfProducts(ms[1..])
  }

  /** All matches of the text are read as their operands. */
  lemma FoundAreReadable(s: string)
    ensures Readable(FindMulInstructions(s))
  {
    var ms := FindMulInstructions(s);
    ScanSound(s, 0);
    forall m | m in ms ensures |DigitRunsFrom(m.text, 0)| != 1 {
      ReportedIsInstruction(s, m);
      NumbersOfInstruction(OperandsAt(s, m.index));
    }
  }

  /** The answer of challenge 1. */
  function Total(s: string): nat
  {
    FoundAreReadable(s);
    SumOfProducts(FindMulInstructions(s))
  }

  /** The product of a match is `a * b` for the operands found there. */
  lemma ProductOfReported(s: string, m: Mul)
    requires Reported(s, m)
    ensures |DigitRunsFrom(m.text, 0)| == 2
    ensures RunsMatchLen(s, m.index) > 0
    ensures WellFormedOperands(OperandsAt(s, m.index))
    ensures Product(m) == ParseNat(OperandsAt(s, m.index).left) * ParseNat(OperandsAt(s, m.index).right)
  {
    ReportedIsInstruction(s, m);
    NumbersOfInstruction(OperandsAt(s, m.index));
  }

  /** A text containing no instruction totals 0. */
  lemma NoInstructionTotalsZero(s: string)
    requires forall i :: 0 <= i < |s| ==> MatchLen(s, i) == 0
    ensures FindMulInstructions(s) == []
    ensures Total(s) == 0
  {
    NoMatchScansEmpty(s, 0);
  }

  /** A text whose only `m` is its first character, and where no instruction
      starts at 0, holds no instruction. */
  lemma OnlyLeadingM(s: string)
    requires |s| >= 1 && RunsMatchLen(s, 0) == 0
    requires forall i :: 0 < i < |s| ==> s[i] != 'm'
    ensures FindMulInstructions(s) == []
  {
    MatchLenByRuns(s, 0);
    forall i | 0 < i < |s| ensures MatchLen(s, i) == 0 {
      NotMNoMatch(s, i);
    }
    NoInstructionTotalsZero(s);
  }

  /** `mul(a,b` without its closing parenthesis is no instruction. */
  lemma MissingParenIgnored(a: string, b: string)
    requires |a| >= 1 && IsDigits(a) && |b| >= 1 && IsDigits(b)
    ensures FindMulInstructions("mul(" + a + "," + b) == []
  {
    var t := "mul(" + a + "," + b;
    assert t[..4] == "mul(";
    forall i | 0 < i < |t| ensures t[i] != 'm' {
      if i < 4 {
        assert t[i] == "mul("[i];
      } else if i < 4 + |a| {
        assert t[i] == a[i - 4];
      } else if i > 4 + |a| {
        assert t[i] == b[i - 5 - |a|];
      }
    }
    forall k | 4 <= k < 4 + |a| ensures IsDigit(t[k]) {
      assert t[k] == a[k - 4];
    }
    DigitRunExact(t, 4, |a|);
    forall k | 5 + |a| <= k < 5 + |a| + |b| ensures IsDigit(t[k]) {
      assert t[k] == b[k - 5 - |a|];
    }
    DigitRunExact(t, 5 + |a|, |b|);
    OnlyLeadingM(t);
  }

  /** `mul (a,b)`, with a space before the parenthesis, is no instruction. */
  lemma SpaceBeforeParenIgnored(a: string, b: string)
    requires IsDigits(a) && IsDigits(b)
    ensures FindMulInstructions("mul (" + a + "," + b + ")") == []
  {
    var t := "mul (" + a + "," + b + ")";
    assert t[..5] == "mul (";
    assert t[3] == ' ';
    forall i | 0 < i < |t| ensures t[i] != 'm' {
      if i < 5 {
        assert t[i] == "mul ("[i];
      } else if 5 <= i < 5 + |a| {
        assert t[i] == a[i - 5];
      } else if 5 + |a| < i < 6 + |a| + |b| {
        assert t[i] == b[i - 6 - |a|];
      }
    }
    OnlyLeadingM(t);
  }

  /** `mul(a, b)`, with a space after the comma, is no instruction. */
  lemma SpaceAfterCommaIgnored(a: string, b: string)
    requires |a| >= 1 && IsDigits(a) && IsDigits(b)
    ensures FindMulInstructions("mul(" + a + ", " + b + ")") == []
  {
    var t := "mul(" + a + ", " + b + ")";
    assert t[..4] == "mul(";
    forall i | 0 < i < |t| ensures t[i] != 'm' {
      if i < 4 {
        assert t[i] == "mul("[i];
      } else if i < 4 + |a| {
        assert t[i] == a[i - 4];
      } else if 6 + |a| <= i < 6 + |a| + |b| {
        assert t[i] == b[i - 6 - |a|];
      }
    }
    forall k | 4 <= k < 4 + |a| ensures IsDigit(t[k]) {
      assert t[k] == a[k - 4];
    }
    DigitRunExact(t, 4, |a|);
    assert t[5 + |a|] == ' ';
    DigitRunExact(t, 5 + |a|, 0);
    OnlyLeadingM(t);
  }

  // ---------------------------------------------------------------------
  // Challenge 2: do() / don't() gating

  /** `matchAll` of a literal pattern: the left-to-right, non-overlapping
      occurrences from `from` on. */
  function Occurrences(s: string, pat: string, from: nat): (xs: seq<nat>)
    requires |pat| >= 1
    ensures forall x :: x in xs ==> from <= x && OccursAt(s, pat, x)
    decreases |s| - from
  {
    var i := FindFrom(s, pat, from);
    if i == -1 then [] else [i] + Occurrences(s, pat, i + |pat|)
  }

  lemma SliceIndex(s: string, lo: int, n: int, k: int)
    ensures 0 <= lo && 0 <= k < n && lo + n <= |s| ==> s[lo..lo + n][k] == s[lo + k]
  {
  }

  /** The first character of the pattern does not recur in it, so two of its
      occurrences never overlap. */
  predicate NoSelfOverlap(pat: string)
  {
    |pat| >= 1 && forall d :: 0 < d < |pat| ==> pat[d] != pat[0]
  }

  /** Two occurrences of such a pattern are at least its length apart. */
  lemma OccurrencesApart(s: string, pat: string, j: nat, i: nat)
    requires NoSelfOverlap(pat)
    requires j < i && OccursAt(s, pat, j) && OccursAt(s, pat, i)
    ensures j + |pat| <= i
  {
    if i < j + |pat| {
      SliceIndex(s, j, |pat|, i - j);
      SliceIndex(s, i, |pat|, 0);
      assert false;
    }
  }

  lemma OccurrencesHead(s: string, pat: string, from: nat)
    requires |pat| >= 1 && FindFrom(s, pat, from) != -1
    ensures Occurrences(s, pat, from) ==
              [FindFrom(s, pat, from)] + Occurrences(s, pat, FindFrom(s, pat, from) + |pat|)
  {
  }

  /** For a pattern that cannot overlap itself, `matchAll` finds every
      occurrence. */
  lemma {:induction false} OccurrencesComplete(s: string, pat: string, from: nat, i: nat)
    requires NoSelfOverlap(pat)
    requires from <= i && OccursAt(s, pat, i)
    ensures i in Occurrences(s, pat, from)
    decreases |s| - from
  {
    var j := FindFrom(s, pat, from);
    assert j != -1;
    OccurrencesHead(s, pat, from);
    if j != i {
      OccurrencesApart(s, pat, j, i);
      OccurrencesComplete(s, pat, j + |pat|, i);
    }
  }

  /** `Math.max` of the indices below `m`, `None` standing for `-Infinity`. */
  function MaxBelow(xs: seq<nat>, m: nat): (r: Option<nat>)
    ensures r.None? <==> forall x :: x in xs ==> x >= m
    ensures r.Some? ==> r.value < m && r.value in xs
    ensures r.Some? ==> forall x :: x in xs && x < m ==> x <= r.value
  {
    if |xs| == 0 then None
    else
      var rest := MaxBelow(xs[1..], m);
      assert xs[0] in xs;
      assert forall x :: x in xs <==> x == xs[0] || x in xs[1..];
      if xs[0] >= m then rest
      else if rest.Some? && rest.value >= xs[0] then rest
      else Some(xs[0])
  }

  predicate DoAt(s: string, i: int)
  {
    OccursAt(s, "do()", i)
  }

  predicate DontAt(s: string, i: int)
  {
    OccursAt(s, "don't()", i)
  }

  /** The filter of challenge 2: an instruction at index `m` is kept when no
      `don't()` starts before it, or the latest `do()` before it starts after
      the latest `don't()` before it. */
  function Kept(s: string, m: nat): bool
  {
    Switch(MaxBelow(Occurrences(s, "do()", 0), m), MaxBelow(Occurrences(s, "don't()", 0), m))
  }

  /** Reference: read the text left to right with an on/off switch that starts
      on; `do()` turns it on and `don't()` off. */
  function EnabledBefore(s: string, m: nat): bool
  {
    if m == 0 then true
    else if DontAt(s, m - 1) then false
    else if DoAt(s, m - 1) then true
    else EnabledBefore(s, m - 1)
  }

  /** The latest occurrence of `pat` starting below `m`. */
  function LastBelow(s: string, pat: string, m: nat): (r: Option<nat>)
    ensures r.Some? ==> r.value < m && OccursAt(s, pat, r.value)
    ensures r.Some? ==> forall j :: r.value < j < m ==> !OccursAt(s, pat, j)
    ensures r.None? ==> forall j :: 0 <= j < m ==> !OccursAt(s, pat, j)
  {
    if m == 0 then None
    else if OccursAt(s, pat, m - 1) then Some(m - 1)
    else LastBelow(s, pat, m - 1)
  }

  lemma MaxOfOccurrencesIsLast(s: string, pat: string, m: nat)
    requires NoSelfOverlap(pat)
    ensures MaxBelow(Occurrences(s, pat, 0), m) == LastBelow(s, pat, m)
  {
    var xs := Occurrences(s, pat, 0);
    var b := LastBelow(s, pat, m);
    if b.Some? {
      OccurrencesComplete(s, pat, 0, b.value);
    }
    MaxOfCompleteList(s, pat, xs, m);
  }

  /** The largest entry below `m` of a list holding only occurrences, and
      holding the last one below `m`, is that last occurrence. */
  lemma MaxOfCompleteList(s: string, pat: string, xs: seq<nat>, m: nat)
    requires forall x :: x in xs ==> OccursAt(s, pat, x)
    requires LastBelow(s, pat, m).Some? ==> LastBelow(s, pat, m).value in xs
    ensures MaxBelow(xs, m) == LastBelow(s, pat, m)
  {
    var r := MaxBelow(xs, m);
    var b := LastBelow(s, pat, m);
    if b.Some? {
      assert r.Some? && b.value <= r.value;
      assert OccursAt(s, pat, r.value);
    } else {
      forall x | x in xs ensures x >= m {
        assert OccursAt(s, pat, x);
      }
    }
  }

  /** The on/off switch as a comparison of the latest `do()` and `don't()`. */
  function Switch(lastDo: Option<nat>, lastDont: Option<nat>): bool
  {
    lastDont.None? || (lastDo.Some? && lastDo.value > lastDont.value)
  }

  /** The switch read left to right is decided by the latest `do()` and
      `don't()` before `m`. */
  lemma {:induction false} EnabledByLast(s: string, m: nat)
    ensures EnabledBefore(s, m) == Switch(LastBelow(s, "do()", m), LastBelow(s, "don't()", m))
  {
    if m > 0 && !DontAt(s, m - 1) && !DoAt(s, m - 1) {
      EnabledByLast(s, m - 1);
    }
  }

  /** The `Math.max` comparison of the source is the on/off switch. */
  lemma KeptIsEnabled(s: string, m: nat)
    ensures Kept(s, m) == EnabledBefore(s, m)
  {
    assert NoSelfOverlap("do()");
    assert NoSelfOverlap("don't()");
    MaxOfOccurrencesIsLast(s, "do()", m);
    MaxOfOccurrencesIsLast(s, "don't()", m);
    EnabledByLast(s, m);
  }

  /** An instruction after a `don't()` with no `do()` in between is dropped. */
  lemma DroppedAfterDont(s: string, d: nat, m: nat)
    requires d < m && DontAt(s, d)
    requires forall j :: d < j < m ==> !DoAt(s, j)
    ensures !Kept(s, m)
  {
    KeptIsEnabled(s, m);
    DisabledAfterDont(s, d, m);
  }

  lemma {:induction false} DisabledAfterDont(s: string, d: nat, m: nat)
    requires d < m && DontAt(s, d)
    requires forall j :: d < j < m ==> !DoAt(s, j)
    ensures !EnabledBefore(s, m)
    decreases m
  {
    if m - 1 != d && !DontAt(s, m - 1) {
      DisabledAfterDont(s, d, m - 1);
    }
  }

  /** The instructions whose start index `keep` accepts, in their original
      order (`Array.prototype.filter`). */
  function Select(ms: seq<Mul>, keep: nat -> bool): (kept: seq<Mul>)
    ensures forall m :: m in kept <==> m in ms && keep(m.index)
    ensures |kept| <= |ms|
  {
    if |ms| == 0 then []
    else
      var rest := Select(ms[1..], keep);
      assert forall m :: m in ms <==> m == ms[0] || m in ms[1..];
      if keep(ms[0].index) then [ms[0]] + rest else rest
  }

  /** Start indices strictly increase along the sequence. */
  predicate Ascending(ms: seq<Mul>)
  {
    forall a, b :: 0 <= a < b < |ms| ==> ms[a].index < ms[b].index
  }

  /** Every start index is at least `lo`. */
  predicate StartsFrom(ms: seq<Mul>, lo: nat)
  {
    forall k :: 0 <= k < |ms| ==> lo <= ms[k].index
  }

  /** Selecting preserves the relative order of the instructions. */
  lemma {:induction false} SelectIsSubsequence(ms: seq<Mul>, keep: nat -> bool, lo: nat)
    requires Ascending(ms) && StartsFrom(ms, lo)
    ensures Ascending(Select(ms, keep)) && StartsFrom(Select(ms, keep), lo)
  {
    if |ms| > 0 {
      var tail := ms[1..];
      SelectIsSubsequence(tail, keep, ms[0].index + 1);
      var rest := Select(tail, keep);
      if keep(ms[0].index) {
        assert Select(ms, keep) == [ms[0]] + rest;
        AscendingCons(ms[0], rest, lo);
      }
    }
  }

  /** An instruction in front of later ones keeps the order. */
  lemma AscendingCons(m: Mul, rest: seq<Mul>, lo: nat)
    requires lo <= m.index && Ascending(rest) && StartsFrom(rest, m.index + 1)
    ensures Ascending([m] + rest) && StartsFrom([m] + rest, lo)
  {
    var kept := [m] + rest;
    assert forall k :: 0 < k < |kept| ==> kept[k] == rest[k - 1];
  }

  lemma {:induction false} SelectAll(ms: seq<Mul>, keep: nat -> bool)
    requires forall m :: m in ms ==> keep(m.index)
    ensures Select(ms, keep) == ms
  {
    if |ms| > 0 {
      assert ms[0] in ms;
      assert forall m :: m in ms[1..] ==> m in ms;
      SelectAll(ms[1..], keep);
      assert ms == [ms[0]] + ms[1..];
    }
  }

  /** findMulInstructions (challenge 2). */
  function FindEnabledMulInstructions(s: string): seq<Mul>
  {
    Select(FindMulInstructions(s), (i: nat) => Kept(s, i))
  }

  /** The answer of challenge 2. */
  function EnabledTotal(s: string): nat
  {
    FoundAreReadable(s);
    SumOfProducts(FindEnabledMulInstructions(s))
  }

  /** The enabled instructions are an order-preserving selection of the
      challenge 1 instructions. */
  lemma EnabledAreOrderedSubset(s: string)
    ensures forall m :: m in FindEnabledMulInstructions(s) <==>
              m in FindMulInstructions(s) && EnabledBefore(s, m.index)
    ensures Ascending(FindEnabledMulInstructions(s))
  {
    var ms := FindMulInstructions(s);
    ScanSound(s, 0);
    ScanOrdered(s, 0);
    forall a, b | 0 <= a < b < |ms| ensures ms[a].index < ms[b].index {
      assert Reported(s, ms[a]);
    }
    forall m | m in ms {
      KeptIsEnabled(s, m.index);
    }
    SelectIsSubsequence(ms, (i: nat) => Kept(s, i), 0);
  }

  /** Without any `don't()` challenge 2 adds up the same as challenge 1. */
  lemma NoDontSameTotal(s: string)
    requires forall j :: 0 <= j < |s| ==> !DontAt(s, j)
    ensures FindEnabledMulInstructions(s) == FindMulInstructions(s)
    ensures EnabledTotal(s) == Total(s)
  {
    var ms := FindMulInstructions(s);
    forall m | m in ms ensures Kept(s, m.index) {
      KeptIsEnabled(s, m.index);
      AlwaysEnabled(s, m.index);
    }
    SelectAll(ms, (i: nat) => Kept(s, i));
  }

  lemma {:induction false} AlwaysEnabled(s: string, m: nat)
    requires forall j :: 0 <= j < |s| ==> !DontAt(s, j)
    ensures EnabledBefore(s, m)
  {
    if m > 0 {
      assert !DontAt(s, m - 1);
      AlwaysEnabled(s, m - 1);
    }
  }
}
