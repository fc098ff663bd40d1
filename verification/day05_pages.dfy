/** Day 5: page-ordering rules `before|after` and updates (lists of pages).
    Challenge 1 adds up the middle pages of the updates that follow every
    rule; challenge 2 repairs the other updates by swapping the two pages of
    a broken rule until none is broken, and adds up their middle pages. */
module PageOrder {
  import opened Options
  import opened Seqs
  import opened Text

  datatype Rule = Rule(before: nat, after: nat)

  type Update = seq<nat>

  datatype Input = Input(rules: seq<Rule>, updates: seq<Update>)

  // ---------------------------------------------------------------------
  // normalizeInput

  /** One `before|after` line: `parseInt` of the first two `|`-pieces. A line
      whose pieces are not decimal numbers reads `NaN`, here `None`. */
  function ParseRule(line: string): Option<Rule>
  {
    var parts := Split(line, "|");
    if |parts| >= 2 && |parts[0]| >= 1 && IsDigits(parts[0]) && |parts[1]| >= 1 && IsDigits(parts[1])
    then Some(Rule(ParseNat(parts[0]), ParseNat(parts[1])))
    else None
  }

  function ParseRules(lines: seq<string>): (r: Option<seq<Rule>>)
    ensures r.Some? ==> |r.value| == |lines|
  {
    if |lines| == 0 then Some([])
    else
      match (ParseRule(lines[0]), ParseRules(lines[1..]))
      case (Some(rule), Some(rest)) => Some([rule] + rest)
      case _ => None
  }

  /** `Number` of each `,`-piece; `Number("")` is 0. */
  function ParsePages(pieces: seq<string>): (r: Option<Update>)
    ensures r.Some? ==> |r.value| == |pieces|
  {
    if |pieces| == 0 then Some([])
    else if !IsDigits(pieces[0]) then None
    else
      match ParsePages(pieces[1..])
      case Some(rest) => Some([ParseNat(pieces[0])] + rest)
      case None => None
  }

  function ParseUpdates(lines: seq<string>): (r: Option<seq<Update>>)
    ensures r.Some? ==> |r.value| == |lines|
  {
    if |lines| == 0 then Some([])
    else
      match (ParsePages(Split(lines[0], ",")), ParseUpdates(lines[1..]))
      case (Some(u), Some(rest)) => Some([u] + rest)
      case _ => None
  }

  /** normalizeInput: rules before the first blank line, updates after it
      (up to the next blank line). Without a blank line there are no updates
      to split, and the source fails. */
  function NormalizeInput(input: string): Option<Input>
  {
    var sections := Split(input, "\n\n");
    if |sections| < 2 then None
    else
      match (ParseRules(Split(sections[0], "\n")), ParseUpdates(Split(sections[1], "\n")))
      case (Some(rules), Some(updates)) => Some(Input(rules, updates))
      case _ => None
  }

  /** The text of a rule, as the puzzle writes it. */
  function RuleLine(r: Rule): string
  {
    NatToString(r.before) + "|" + NatToString(r.after)
  }

  function RuleLines(rules: seq<Rule>): (lines: seq<string>)
    ensures |lines| == |rules|
  {
    if |rules| == 0 then [] else [RuleLine(rules[0])] + RuleLines(rules[1..])
  }

  function PageStrings(u: Update): (ps: seq<string>)
    ensures |ps| == |u|
  {
    if |u| == 0 then [] else [NatToString(u[0])] + PageStrings(u[1..])
  }

  /** The text of an update. */
  function UpdateLine(u: Update): string
  {
    Join(PageStrings(u), ",")
  }

  function UpdateLines(updates: seq<Update>): (lines: seq<string>)
    ensures |lines| == |updates|
  {
    if |updates| == 0 then [] else [UpdateLine(updates[0])] + UpdateLines(updates[1..])
  }

  /** The puzzle text of an input: rule lines, a blank line, update lines. */
  function RenderInput(input: Input): string
  {
    Join(RuleLines(input.rules), "\n") + "\n\n" + Join(UpdateLines(input.updates), "\n")
  }

  /** A line: non-empty, without line breaks. */
  predicate IsLine(l: string)
  {
    |l| >= 1 && '\n' !in l
  }

  /** Text made of lines joined by single line breaks. */
  predicate IsLines(t: string)
  {
    && |t| >= 1 && t[0] != '\n' && t[|t| - 1] != '\n'
    && forall j :: 0 <= j < |t| - 1 ==> !(t[j] == '\n' && t[j + 1] == '\n')
  }

  lemma {:induction false} JoinLines(lines: seq<string>)
    requires |lines| >= 1
    requires forall k :: 0 <= k < |lines| ==> IsLine(lines[k])
    ensures IsLines(Join(lines, "\n"))
  {
    if |lines| > 1 {
      var l, rest := lines[0], Join(lines[1..], "\n");
      JoinLines(lines[1..]);
      var t := l + "\n" + rest;
      assert Join(lines, "\n") == t;
      forall j | 0 <= j < |t| - 1 ensures !(t[j] == '\n' && t[j + 1] == '\n') {
        if j < |l| {
          assert t[j] == l[j];
          assert l[j] in l;
        } else if j == |l| {
          assert t[j + 1] == rest[0];
        } else {
          assert t[j] == rest[j - |l| - 1] && t[j + 1] == rest[j - |l|];
        }
      }
      assert t[0] == l[0] && l[0] in l;
    }
  }

  /** Two characters of a text, as a slice. */
  lemma PairSlice(t: string, j: int)
    ensures 0 <= j && j + 2 <= |t| ==> t[j..j + 2] == [t[j], t[j + 1]]
  {
  }

  /** No blank line inside text made of lines. */
  lemma NoBlankInLines(t: string)
    requires IsLines(t)
    ensures forall j :: !OccursAt(t, "\n\n", j)
  {
    forall j ensures !OccursAt(t, "\n\n", j) {
      PairSlice(t, j);
    }
  }

  /** The first blank line of `a + "\n\n" + b` follows `a`. */
  lemma NoBlankBefore(a: string, b: string)
    requires IsLines(a)
    ensures forall j :: 0 <= j < |a| ==> !OccursAt(a + "\n\n" + b, "\n\n", j)
  {
    var t := a + "\n\n" + b;
    forall j | 0 <= j < |a| ensures !OccursAt(t, "\n\n", j) {
      PairSlice(t, j);
      assert t[j] == a[j];
      if j + 1 < |a| {
        assert t[j + 1] == a[j + 1];
      }
    }
  }

  lemma DigitsHaveNoSeparators(s: string)
    requires IsDigits(s)
    ensures '\n' !in s && '|' !in s && ',' !in s
  {
  }

  lemma ParseRuleLine(r: Rule)
    ensures ParseRule(RuleLine(r)) == Some(r)
    ensures IsLine(RuleLine(r))
  {
    var a, b := NatToString(r.before), NatToString(r.after);
    DigitsHaveNoSeparators(a);
    DigitsHaveNoSeparators(b);
    assert Join([a, b], "|") == RuleLine(r);
    SplitJoin([a, b], "|");
    ParseNatToString(r.before);
    ParseNatToString(r.after);
  }

  lemma {:induction false} RuleLinesAreLines(rules: seq<Rule>)
    ensures forall k :: 0 <= k < |rules| ==> IsLine(RuleLines(rules)[k])
  {
    if |rules| > 0 {
      ParseRuleLine(rules[0]);
      RuleLinesAreLines(rules[1..]);
      assert forall k :: 0 < k < |rules| ==> RuleLines(rules)[k] == RuleLines(rules[1..])[k - 1];
    }
  }

  lemma {:induction false} UpdateLinesAreLines(updates: seq<Update>)
    requires forall k :: 0 <= k < |updates| ==> |updates[k]| >= 1
    ensures forall k :: 0 <= k < |updates| ==> IsLine(UpdateLines(updates)[k])
  {
    if |updates| > 0 {
      ParseUpdateLine(updates[0]);
      UpdateLinesAreLines(updates[1..]);
      assert forall k :: 0 < k < |updates| ==> UpdateLines(updates)[k] == UpdateLines(updates[1..])[k - 1];
    }
  }

  lemma {:induction false} PageStringsAreDigits(u: Update)
    ensures forall k :: 0 <= k < |u| ==> IsDigits(PageStrings(u)[k])
  {
    if |u| > 0 {
      PageStringsAreDigits(u[1..]);
      assert forall k :: 0 < k < |u| ==> PageStrings(u)[k] == PageStrings(u[1..])[k - 1];
    }
  }

  lemma {:induction false} ParseRuleLines(rules: seq<Rule>)
    ensures ParseRules(RuleLines(rules)) == Some(rules)
  {
    if |rules| > 0 {
      ParseRuleLine(rules[0]);
      ParseRuleLines(rules[1..]);
      assert RuleLines(rules)[1..] == RuleLines(rules[1..]);
      assert rules == [rules[0]] + rules[1..];
    }
  }

  lemma {:induction false} ParsePageStrings(u: Update)
    ensures ParsePages(PageStrings(u)) == Some(u)
  {
    if |u| > 0 {
      ParseNatToString(u[0]);
      ParsePageStrings(u[1..]);
      assert PageStrings(u)[1..] == PageStrings(u[1..]);
      assert u == [u[0]] + u[1..];
    }
  }

  /** Digits and commas: no line break. */
  lemma {:induction false} UpdateLineChars(ps: seq<string>)
    requires forall k :: 0 <= k < |ps| ==> IsDigits(ps[k])
    ensures forall c :: c in Join(ps, ",") ==> c == ',' || IsDigit(c)
  {
    if |ps| > 1 {
      UpdateLineChars(ps[1..]);
    }
  }

  lemma ParseUpdateLine(u: Update)
    requires |u| >= 1
    ensures ParsePages(Split(UpdateLine(u), ",")) == Some(u)
    ensures IsLine(UpdateLine(u))
  {
    var ps := PageStrings(u);
    PageStringsAreDigits(u);
    forall k | 0 <= k < |ps| ensures ',' !in ps[k] {
      DigitsHaveNoSeparators(ps[k]);
    }
    SplitJoin(ps, ",");
    ParsePageStrings(u);
    UpdateLineChars(ps);
    assert |UpdateLine(u)| >= 1 by {
      if |ps| > 1 {
        assert |UpdateLine(u)| >= |ps[0]|;
      }
    }
  }

  lemma {:induction false} ParseUpdateLines(updates: seq<Update>)
    requires forall k :: 0 <= k < |updates| ==> |updates[k]| >= 1
    ensures ParseUpdates(UpdateLines(updates)) == Some(updates)
  {
    if |updates| > 0 {
      ParseUpdateLine(updates[0]);
      ParseUpdateLines(updates[1..]);
      assert UpdateLines(updates)[1..] == UpdateLines(updates[1..]);
      assert updates == [updates[0]] + updates[1..];
    }
  }

  /** normalizeInput reads back the rules and updates of the puzzle text
      that lists them. */
  lemma NormalizeRendered(input: Input)
    requires |input.rules| >= 1 && |input.updates| >= 1
    requires forall k :: 0 <= k < |input.updates| ==> |input.updates[k]| >= 1
    ensures NormalizeInput(RenderInput(input)) == Some(input)
  {
    var ruleLines, updateLines := RuleLines(input.rules), UpdateLines(input.updates);
    RuleLinesAreLines(input.rules);
    UpdateLinesAreLines(input.updates);
    var a, b := Join(ruleLines, "\n"), Join(updateLines, "\n");
    JoinLines(ruleLines);
    JoinLines(updateLines);
    NoBlankBefore(a, b);
    NoBlankInLines(b);
    SplitAtFirst(a, "\n\n", b);
    SplitJoin(ruleLines, "\n");
    SplitJoin(updateLines, "\n");
    ParseRuleLines(input.rules);
    ParseUpdateLines(input.updates);
  }

  // ---------------------------------------------------------------------
  // checkUpdate (challenge 1)

  /** `update.findIndex((number) => number === page)`. */
  function FindIndex(u: Update, page: nat): (i: int)
    ensures i == -1 <==> page !in u
    ensures i != -1 ==> 0 <= i < |u| && u[i] == page && page !in u[..i]
  {
    if |u| == 0 then -1
    else if u[0] == page then 0
    else
      var k := FindIndex(u[1..], page);
      assert u[1..][..k + 1] == u[1..k + 2] by {
        if k != -1 {
          assert u[1..][..k] == u[1..k + 1];
        }
      }
      if k == -1 then -1 else k + 1
  }

  /** The test one rule gets in checkUpdate: it passes when either page is
      missing, or the first `before` comes first. */
  predicate RuleHolds(u: Update, r: Rule)
  {
    var b, a := FindIndex(u, r.before), FindIndex(u, r.after);
    b == -1 || a == -1 || b < a
  }

  /** Reference reading of a rule: when the update holds `before`, every
      `after` in it has a `before` somewhere ahead of it. */
  predicate Respects(u: Update, r: Rule)
  {
    forall j :: 0 <= j < |u| && u[j] == r.after && r.before in u ==> r.before in u[..j]
  }

  /** The first occurrence of a page is no later than any occurrence. */
  lemma {:induction false} FirstIndexAtMost(u: Update, page: nat, j: nat)
    requires j < |u| && u[j] == page
    ensures 0 <= FindIndex(u, page) <= j
  {
    if u[0] != page {
      FirstIndexAtMost(u[1..], page, j - 1);
    }
  }

  /** Before the first occurrence (or anywhere, if there is none) the page is
      absent. */
  lemma NotBeforeFirst(u: Update, page: nat, k: nat)
    requires k <= |u|
    requires FindIndex(u, page) == -1 || FindIndex(u, page) >= k
    ensures page !in u[..k]
  {
    var i := FindIndex(u, page);
    var m := if i == -1 then |u| else i;
    assert page !in u[..m];
    assert forall t :: 0 <= t < k ==> u[..k][t] == u[..m][t];
  }

  lemma RuleHoldsIffRespects(u: Update, r: Rule)
    ensures RuleHolds(u, r) <==> Respects(u, r)
  {
    var b, a := FindIndex(u, r.before), FindIndex(u, r.after);
    if b == -1 {
      NotBeforeFirst(u, r.before, |u|);
      assert u[..|u|] == u;
    } else if a != -1 {
      if b < a {
        forall j | 0 <= j < |u| && u[j] == r.after ensures r.before in u[..j] {
          FirstIndexAtMost(u, r.after, j);
          assert u[..j][b] == r.before;
        }
      } else {
        assert u[a] == r.after;
        NotBeforeFirst(u, r.before, a);
      }
    }
  }

  /** A rule about a page the update lacks never fails. */
  lemma AbsentPageIgnored(u: Update, r: Rule)
    requires r.before !in u || r.after !in u
    ensures RuleHolds(u, r) && Respects(u, r)
  {
    RuleHoldsIffRespects(u, r);
  }

  /** Every rule passes its test. */
  predicate Valid(u: Update, rules: seq<Rule>)
  {
    forall k :: 0 <= k < |rules| ==> RuleHolds(u, rules[k])
  }

  /** checkUpdate: the loop over the rules, stopping at the first failure. */
  method CheckUpdate(update: Update, rules: seq<Rule>) returns (ok: bool)
    ensures ok <==> Valid(update, rules)
    ensures ok <==> forall k :: 0 <= k < |rules| ==> Respects(update, rules[k])
  {
    for k := 0 to |rules|
      invariant Valid(update, rules[..k])
      invariant forall i :: 0 <= i < k ==> Respects(update, rules[i])
    {
      var before, after := rules[k].before, rules[k].after;
      var indexOfBefore := FindIndex(update, before);
      var indexOfAfter := FindIndex(update, after);
      RuleHoldsIffRespects(update, rules[k]);
      if indexOfBefore == -1 || indexOfAfter == -1 {
        assert rules[..k + 1][k] == rules[k];
        continue;
      }
      var isValid := indexOfBefore < indexOfAfter;
      if !isValid {
        return false;
      }
      assert rules[..k + 1][k] == rules[k];
    }
    assert rules[..|rules|] == rules;
    return true;
  }

  /** getMiddleNumberFromUpdate. The parsed updates are never empty. */
  function GetMiddleNumberFromUpdate(u: Update): (m: nat)
    requires |u| >= 1
    ensures m in u
  {
    u[|u| / 2]
  }

  /** The middle page has as many pages after it as before it (one fewer on
      an even length). */
  lemma MiddleIsCentral(u: Update)
    requires |u| >= 1
    ensures exists i :: 0 <= i < |u| && u[i] == GetMiddleNumberFromUpdate(u)
              && |u| - 1 - i <= i <= |u| - i
  {
    assert u[|u| / 2] == GetMiddleNumberFromUpdate(u);
  }

  /** The middle pages of the valid updates. */
  function ValidMiddles(updates: seq<Update>, rules: seq<Rule>): seq<int>
    requires forall k :: 0 <= k < |updates| ==> |updates[k]| >= 1
  {
    if |updates| == 0 then []
    else
      (if Valid(updates[0], rules) then [GetMiddleNumberFromUpdate(updates[0]) as int] else [])
      + ValidMiddles(updates[1..], rules)
  }

  /** The answer of challenge 1. */
  function SumOfValidMiddles(input: Input): int
    requires forall k :: 0 <= k < |input.updates| ==> |input.updates[k]| >= 1
  {
    Sum(ValidMiddles(input.updates, input.rules))
  }

  // ---------------------------------------------------------------------
  // fixUpdate (challenge 2)

  /** Index of the first rule whose test fails, where the loop of fixUpdate
      stops. */
  function FirstViolation(u: Update, rules: seq<Rule>): (v: Option<nat>)
    ensures v.None? <==> Valid(u, rules)
    ensures v.Some? ==> v.value < |rules| && !RuleHolds(u, rules[v.value])
    ensures v.Some? ==> forall k :: 0 <= k < v.value ==> RuleHolds(u, rules[k])
  {
    if |rules| == 0 then None
    else if !RuleHolds(u, rules[0]) then Some(0)
    else
      match FirstViolation(u, rules[1..])
      case None => None
      case Some(k) => Some(k + 1)
  }

  /** `newUpdate[i] = update[j]; newUpdate[j] = update[i]` on a copy. */
  function Swap(u: Update, i: nat, j: nat): (v: Update)
    requires i < |u| && j < |u|
    ensures |v| == |u| && v[i] == u[j] && v[j] == u[i]
    ensures forall k :: 0 <= k < |u| && k != i && k != j ==> v[k] == u[k]
  {
    u[i := u[j]][j := u[i]]
  }

  /** Swapping two pages keeps the same pages. */
  lemma SwapPermutes(u: Update, i: nat, j: nat)
    requires i < |u| && j < |u|
    ensures multiset(Swap(u, i, j)) == multiset(u)
  {
  }

  /** One repair: swap the first `before` and the first `after` of a failing
      rule. */
  function RepairAt(u: Update, r: Rule): (v: Update)
    requires !RuleHolds(u, r)
    ensures |v| == |u|
  {
    Swap(u, FindIndex(u, r.before), FindIndex(u, r.after))
  }

  /** The result of fixUpdate: `null` for an update that already follows the
      rules, the repaired update otherwise. The source recurses until no rule
      fails, which need not happen (a rule `p|p`, or rules in a cycle), so the
      repairs are counted by `fuel` and running out of it is a result of its
      own. */
  datatype Fix = AlreadyValid | Fixed(update: Update) | OutOfFuel

  /** One round of fixUpdate: `None` when no rule fails, otherwise the update
      after repairing the first failing rule. */
  function RepairFirst(u: Update, rules: seq<Rule>): (v: Option<Update>)
    ensures v.None? <==> Valid(u, rules)
  {
    match FirstViolation(u, rules)
    case None => None
    case Some(k) => Some(RepairAt(u, rules[k]))
  }

  /** The recursion of fixUpdate over any one-round step: stop when the step
      finds nothing to repair, recurse on the repaired update otherwise. */
  function Repeat(step: Update -> Option<Update>, u: Update, wasInvalid: bool, fuel: nat): Fix
    decreases fuel
  {
    match step(u)
    case None => if wasInvalid then Fixed(u) else AlreadyValid
    case Some(v) =>
      if fuel == 0 then OutOfFuel
      else Repeat(step, v, true, fuel - 1)
  }

  /** After the first repair the loop never answers `null`. */
  lemma {:induction false} RepeatNeverNull(step: Update -> Option<Update>, u: Update, fuel: nat)
    ensures Repeat(step, u, true, fuel) != AlreadyValid
    decreases fuel
  {
    if step(u).Some? && fuel > 0 {
      RepeatNeverNull(step, step(u).value, fuel - 1);
    }
  }

  /** The loop answers `null` exactly when the first step finds nothing to
      repair. */
  lemma RepeatNullIffDone(step: Update -> Option<Update>, u: Update, fuel: nat)
    ensures Repeat(step, u, false, fuel) == AlreadyValid <==> step(u).None?
  {
    if step(u).Some? && fuel > 0 {
      RepeatNeverNull(step, step(u).value, fuel - 1);
    }
  }

  /** A finished loop gives the same answer with any larger fuel. */
  lemma {:induction false} RepeatFuelSuffices(step: Update -> Option<Update>, u: Update, wasInvalid: bool, fuel: nat, more: nat)
    requires Repeat(step, u, wasInvalid, fuel) != OutOfFuel && fuel <= more
    ensures Repeat(step, u, wasInvalid, more) == Repeat(step, u, wasInvalid, fuel)
    decreases fuel
  {
    if step(u).Some? {
      RepeatFuelSuffices(step, step(u).value, true, fuel - 1, more - 1);
    }
  }

  /** The step of fixUpdate for a list of rules. */
  function Round(rules: seq<Rule>): Update -> Option<Update>
  {
    u => RepairFirst(u, rules)
  }

  function FixUpdate(u: Update, rules: seq<Rule>, wasInvalid: bool, fuel: nat): Fix
  {
    Repeat(Round(rules), u, wasInvalid, fuel)
  }

  /** Once a repair has been made the answer is never `null`. */
  lemma RepairedNeverNull(u: Update, rules: seq<Rule>, fuel: nat)
    ensures FixUpdate(u, rules, true, fuel) != AlreadyValid
  {
    RepeatNeverNull(Round(rules), u, fuel);
  }

  /** fixUpdate answers `null` exactly for an update that follows every rule. */
  lemma NullIffValid(u: Update, rules: seq<Rule>, fuel: nat)
    ensures FixUpdate(u, rules, false, fuel) == AlreadyValid <==> Valid(u, rules)
  {
    RepeatNullIffDone(Round(rules), u, fuel);
    assert Round(rules)(u).None? <==> Valid(u, rules);
  }

  /** A repaired update is a rearrangement of the input that follows every
      rule. */
  lemma {:induction false} FixedIsValidPermutation(u: Update, rules: seq<Rule>, wasInvalid: bool, fuel: nat)
    requires FixUpdate(u, rules, wasInvalid, fuel).Fixed?
    ensures multiset(FixUpdate(u, rules, wasInvalid, fuel).update) == multiset(u)
    ensures Valid(FixUpdate(u, rules, wasInvalid, fuel).update, rules)
    ensures |FixUpdate(u, rules, wasInvalid, fuel).update| == |u|
    decreases fuel
  {
    var step := Round(rules);
    assert step(u) == RepairFirst(u, rules);
    match FirstViolation(u, rules)
    case None =>
    case Some(k) =>
      var r := rules[k];
      assert step(u) == Some(RepairAt(u, r));
      FixedIsValidPermutation(RepairAt(u, r), rules, true, fuel - 1);
      SwapPermutes(u, FindIndex(u, r.before), FindIndex(u, r.after));
  }

  /** Each repair swaps the first `before` and the first `after` of the first
      failing rule, which stand in the wrong order. */
  lemma RepairStep(u: Update, rules: seq<Rule>, wasInvalid: bool, fuel: nat)
    requires FirstViolation(u, rules).Some? && fuel > 0
    ensures var r := rules[FirstViolation(u, rules).value];
            var b, a := FindIndex(u, r.before), FindIndex(u, r.after);
            && 0 <= a <= b < |u| && u[b] == r.before && u[a] == r.after
            && FixUpdate(u, rules, wasInvalid, fuel) == FixUpdate(Swap(u, b, a), rules, true, fuel - 1)
  {
    assert Round(rules)(u) == RepairFirst(u, rules);
  }

  /** More fuel changes nothing once the repairs finish. */
  lemma FuelSuffices(u: Update, rules: seq<Rule>, wasInvalid: bool, fuel: nat, more: nat)
    requires FixUpdate(u, rules, wasInvalid, fuel) != OutOfFuel && fuel <= more
    ensures FixUpdate(u, rules, wasInvalid, more) == FixUpdate(u, rules, wasInvalid, fuel)
  {
    RepeatFuelSuffices(Round(rules), u, wasInvalid, fuel, more);
  }

  /** A rule `p|p` never passes on an update holding `p`, and swapping a page
      with itself repairs nothing: fixUpdate does not return. */
  lemma {:induction false} SelfRuleNeverFixed(p: nat, fuel: nat)
    ensures FixUpdate([p], [Rule(p, p)], false, fuel) == OutOfFuel
    decreases fuel
  {
    assert !RuleHolds([p], Rule(p, p));
    if fuel > 0 {
      assert RepairAt([p], Rule(p, p)) == [p];
      assert Round([Rule(p, p)])([p]) == Some([p]);
      SelfRuleStaysStuck(p, fuel - 1);
    }
  }

  lemma {:induction false} SelfRuleStaysStuck(p: nat, fuel: nat)
    ensures FixUpdate([p], [Rule(p, p)], true, fuel) == OutOfFuel
    decreases fuel
  {
    assert !RuleHolds([p], Rule(p, p));
    if fuel > 0 {
      assert RepairAt([p], Rule(p, p)) == [p];
      assert Round([Rule(p, p)])([p]) == Some([p]);
      SelfRuleStaysStuck(p, fuel - 1);
    }
  }

  /** The middle pages of the repaired updates (those for which the repairs
      finish within `fuel` swaps). */
  function FixedMiddles(updates: seq<Update>, rules: seq<Rule>, fuel: nat): seq<int>
  {
    if |updates| == 0 then []
    else FixedMiddle(FixUpdate(updates[0], rules, false, fuel)) + FixedMiddles(updates[1..], rules, fuel)
  }

  /** What one answer of fixUpdate adds: the middle page of a repaired
      update, nothing for `null`. */
  function FixedMiddle(f: Fix): seq<int>
  {
    if f.Fixed? && |f.update| >= 1 then [GetMiddleNumberFromUpdate(f.update) as int] else []
  }

  /** The answer of challenge 2. */
  function SumOfFixedMiddles(input: Input, fuel: nat): int
  {
    Sum(FixedMiddles(input.updates, input.rules, fuel))
  }

  /** Valid updates are exactly those challenge 2 leaves out: the two
      answers never count the same update. */
  lemma ChallengesPartition(u: Update, rules: seq<Rule>, fuel: nat)
    ensures Valid(u, rules) ==> FixUpdate(u, rules, false, fuel) == AlreadyValid
    ensures !Valid(u, rules) ==> !FixUpdate(u, rules, false, fuel).AlreadyValid?
  {
    NullIffValid(u, rules, fuel);
  }

  // ---------------------------------------------------------------------
  // The sums in main

  /** Challenge 1 reads the middle page of exactly the updates that follow
      every rule, never more middles than updates. */
  lemma {:induction false} ValidMiddlesMeaning(updates: seq<Update>, rules: seq<Rule>)
    requires forall k :: 0 <= k < |updates| ==> |updates[k]| >= 1
    ensures |ValidMiddles(updates, rules)| <= |updates|
    ensures forall m :: m in ValidMiddles(updates, rules) <==>
              exists k :: 0 <= k < |updates| && Valid(updates[k], rules) && m == updates[k][|updates[k]| / 2]
  {
    if |updates| > 0 {
      var rest := updates[1..];
      ValidMiddlesMeaning(rest, rules);
      forall m ensures m in ValidMiddles(updates, rules) <==>
                 exists k :: 0 <= k < |updates| && Valid(updates[k], rules) && m == updates[k][|updates[k]| / 2]
      {
        if m in ValidMiddles(rest, rules) {
          var k :| 0 <= k < |rest| && Valid(rest[k], rules) && m == rest[k][|rest[k]| / 2];
          assert updates[k + 1] == rest[k];
        }
        if exists k :: 0 <= k < |updates| && Valid(updates[k], rules) && m == updates[k][|updates[k]| / 2] {
          var k :| 0 <= k < |updates| && Valid(updates[k], rules) && m == updates[k][|updates[k]| / 2];
          if k > 0 {
            assert rest[k - 1] == updates[k];
          }
        }
      }
    }
  }

  /** When every update is valid challenge 1 sums every middle page, in
      order. */
  lemma {:induction false} AllValidMiddles(updates: seq<Update>, rules: seq<Rule>)
    requires forall k :: 0 <= k < |updates| ==> |updates[k]| >= 1 && Valid(updates[k], rules)
    ensures |ValidMiddles(updates, rules)| == |updates|
    ensures forall k :: 0 <= k < |updates| ==> ValidMiddles(updates, rules)[k] == updates[k][|updates[k]| / 2]
  {
    if |updates| > 0 {
      AllValidMiddles(updates[1..], rules);
    }
  }

  /** When every repair finishes within `fuel` swaps, each update gives one
      middle page to exactly one of the two answers: a valid update to
      challenge 1, any other to challenge 2. */
  lemma {:induction false} ChallengesShareUpdates(updates: seq<Update>, rules: seq<Rule>, fuel: nat)
    requires forall k :: 0 <= k < |updates| ==> |updates[k]| >= 1
    requires forall k :: 0 <= k < |updates| ==> FixUpdate(updates[k], rules, false, fuel) != OutOfFuel
    ensures |ValidMiddles(updates, rules)| + |FixedMiddles(updates, rules, fuel)| == |updates|
  {
    if |updates| > 0 {
      var rest := updates[1..];
      assert forall k :: 0 <= k < |rest| ==> rest[k] == updates[k + 1];
      ChallengesShareUpdates(rest, rules, fuel);
      OneUpdateShare(updates[0], rules, fuel);
    }
  }

  /** A page is summed by challenge 2 exactly when some update contributes
      it. */
  lemma {:induction false} FixedMiddlesAt(updates: seq<Update>, rules: seq<Rule>, fuel: nat)
    ensures forall m :: m in FixedMiddles(updates, rules, fuel) <==>
              exists k :: 0 <= k < |updates| && m in FixedMiddle(FixUpdate(updates[k], rules, false, fuel))
  {
    if |updates| > 0 {
      var rest := updates[1..];
      FixedMiddlesAt(rest, rules, fuel);
      forall m ensures m in FixedMiddles(updates, rules, fuel) <==>
                 exists k :: 0 <= k < |updates| && m in FixedMiddle(FixUpdate(updates[k], rules, false, fuel))
      {
        if m in FixedMiddles(rest, rules, fuel) {
          var k :| 0 <= k < |rest| && m in FixedMiddle(FixUpdate(rest[k], rules, false, fuel));
          assert updates[k + 1] == rest[k];
        }
        if exists k :: 0 <= k < |updates| && m in FixedMiddle(FixUpdate(updates[k], rules, false, fuel)) {
          var k :| 0 <= k < |updates| && m in FixedMiddle(FixUpdate(updates[k], rules, false, fuel));
          if k > 0 {
            assert rest[k - 1] == updates[k];
          }
        }
      }
    }
  }

  /** Challenge 2 reads the middle page of each update that does not follow
      every rule, once fixUpdate has repaired it into a valid rearrangement
      of itself. */
  lemma FixedMiddlesMeaning(updates: seq<Update>, rules: seq<Rule>, fuel: nat)
    requires forall k :: 0 <= k < |updates| ==> FixUpdate(updates[k], rules, false, fuel) != OutOfFuel
    ensures forall m :: m in FixedMiddles(updates, rules, fuel) <==>
              exists k :: 0 <= k < |updates| && !Valid(updates[k], rules) && RepairedMiddle(updates[k], rules, fuel, m)
  {
    FixedMiddlesAt(updates, rules, fuel);
    forall m ensures m in FixedMiddles(updates, rules, fuel) <==>
               exists k :: 0 <= k < |updates| && !Valid(updates[k], rules) && RepairedMiddle(updates[k], rules, fuel, m)
    {
      if m in FixedMiddles(updates, rules, fuel) {
        var k :| 0 <= k < |updates| && m in FixedMiddle(FixUpdate(updates[k], rules, false, fuel));
        OneUpdateShare(updates[k], rules, fuel);
      }
      if exists k :: 0 <= k < |updates| && !Valid(updates[k], rules) && RepairedMiddle(updates[k], rules, fuel, m) {
        var k :| 0 <= k < |updates| && !Valid(updates[k], rules) && RepairedMiddle(updates[k], rules, fuel, m);
        OneUpdateShare(updates[k], rules, fuel);
      }
    }
  }

  /** What one update that finishes contributes: nothing for a valid
      update, otherwise the middle page of its repair, which keeps its
      length. */
  lemma OneUpdateShare(u: Update, rules: seq<Rule>, fuel: nat)
    requires FixUpdate(u, rules, false, fuel) != OutOfFuel
    ensures Valid(u, rules) <==> FixUpdate(u, rules, false, fuel) == AlreadyValid
    ensures Valid(u, rules) ==> FixedMiddle(FixUpdate(u, rules, false, fuel)) == []
    ensures !Valid(u, rules) ==> |u| >= 1 && |FixedMiddle(FixUpdate(u, rules, false, fuel))| == 1
    ensures forall m :: m in FixedMiddle(FixUpdate(u, rules, false, fuel)) <==> !Valid(u, rules) && RepairedMiddle(u, rules, fuel, m)
  {
    NullIffValid(u, rules, fuel);
    var f := FixUpdate(u, rules, false, fuel);
    if f.Fixed? {
      FixedIsValidPermutation(u, rules, false, fuel);
    }
  }

  /** `m` is the middle page of `u` after fixUpdate repairs it into a valid
      rearrangement of itself. */
  ghost predicate RepairedMiddle(u: Update, rules: seq<Rule>, fuel: nat, m: int)
  {
    exists v: Update :: FixUpdate(u, rules, false, fuel) == Fixed(v)
      && multiset(v) == multiset(u) && Valid(v, rules) && |v| >= 1 && m == v[|v| / 2]
  }
}
