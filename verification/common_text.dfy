/** Decimal digits, `Number(...)` on digit strings, `${n}` on naturals, and
    `String.prototype.split` / `Array.prototype.join` with a string separator. */
module Text {

  predicate IsDigit(c: char)
  {
    '0' <= c <= '9'
  }

  predicate IsDigits(s: string)
  {
    forall i :: 0 <= i < |s| ==> IsDigit(s[i])
  }

  function DigitValue(c: char): (d: nat)
    requires IsDigit(c)
    ensures d < 10
  {
    c as int - '0' as int
  }

  function DigitChar(d: nat): (c: char)
    requires d < 10
    ensures IsDigit(c) && DigitValue(c) == d
  {
    ('0' as int + d) as char
  }

  function Pow10(k: nat): (p: nat)
    ensures p >= 1
  {
    if k == 0 then 1 else 10 * Pow10(k - 1)
  }

  lemma {:induction false} Pow10Add(a: nat, b: nat)
    ensures Pow10(a + b) == Pow10(a) * Pow10(b)
  {
    if b > 0 {
      Pow10Add(a, b - 1);
    }
  }

  /** `Number(s)` for a string of decimal digits; `Number("")` is 0 and leading
      zeros are ignored. */
  function ParseNat(s: string): (n: nat)
    requires IsDigits(s)
    ensures n < Pow10(|s|)
  {
    if |s| == 0 then 0
    else ParseNat(s[..|s| - 1]) * 10 + DigitValue(s[|s| - 1])
  }

  lemma ShiftDigit(pa: int, p: int, pb: int, d: int)
    ensures (pa * p + pb) * 10 + d == pa * (p * 10) + (pb * 10 + d)
  {
  }

  /** Reading one more digit. */
  lemma ParseNatSnoc(x: string, c: char)
    requires IsDigits(x) && IsDigit(c)
    ensures IsDigits(x + [c])
    ensures ParseNat(x + [c]) == ParseNat(x) * 10 + DigitValue(c)
  {
    assert (x + [c])[..|x|] == x;
  }

  /** Reading the digits of `a` followed by the digits of `b`. */
  lemma {:induction false} ParseNatAppend(a: string, b: string)
    requires IsDigits(a) && IsDigits(b)
    ensures IsDigits(a + b)
    ensures ParseNat(a + b) == ParseNat(a) * Pow10(|b|) + ParseNat(b)
  {
    if |b| == 0 {
      assert a + b == a;
    } else {
      var b', c := b[..|b| - 1], b[|b| - 1];
      assert b == b' + [c];
      assert a + b == (a + b') + [c];
      ParseNatAppend(a, b');
      ParseNatSnoc(a + b', c);
      ParseNatSnoc(b', c);
      ShiftDigit(ParseNat(a), Pow10(|b'|), ParseNat(b'), DigitValue(c));
    }
  }

  /** `${n}`: the canonical decimal rendering, without leading zeros. */
  function NatToString(n: nat): (s: string)
    ensures IsDigits(s) && |s| >= 1
    ensures |s| > 1 ==> s[0] != '0'
  {
    if n < 10 then [DigitChar(n)] else NatToString(n / 10) + [DigitChar(n % 10)]
  }

  lemma {:induction false} ParseNatToString(n: nat)
    ensures ParseNat(NatToString(n)) == n
  {
    if n >= 10 {
      var s := NatToString(n);
      assert s[..|s| - 1] == NatToString(n / 10);
      ParseNatToString(n / 10);
    }
  }

  /** `${n}` has `k` digits exactly when `n` lies in `[10^(k-1), 10^k)`. */
  lemma {:induction false} NatToStringLength(n: nat)
    ensures n < Pow10(|NatToString(n)|)
    ensures |NatToString(n)| > 1 ==> Pow10(|NatToString(n)| - 1) <= n
  {
    if n >= 10 {
      NatToStringLength(n / 10);
    }
  }

  /** `sep` occurs in `s` starting at index `j`. */
  predicate OccursAt(s: string, sep: string, j: int)
  {
    0 <= j && j + |sep| <= |s| && s[j..j + |sep|] == sep
  }

  /** First index at or after `from` where `sep` occurs in `s`. */
  function FindFrom(s: string, sep: string, from: nat): (r: int)
    requires |sep| >= 1
    ensures r == -1 || (from <= r && OccursAt(s, sep, r))
    ensures r != -1 ==> forall j :: from <= j < r ==> !OccursAt(s, sep, j)
    ensures r == -1 ==> forall j :: from <= j ==> !OccursAt(s, sep, j)
    decreases |s| - from
  {
    if from + |sep| > |s| then -1
    else if s[from..from + |sep|] == sep then from
    else FindFrom(s, sep, from + 1)
  }

  /** `s.split(sep)`: the pieces between the left-to-right, non-overlapping
      occurrences of `sep`. */
  function Split(s: string, sep: string): (parts: seq<string>)
    requires |sep| >= 1
    ensures |parts| >= 1
    decreases |s|
  {
    var i := FindFrom(s, sep, 0);
    if i == -1 then [s] else [s[..i]] + Split(s[i + |sep|..], sep)
  }

  /** `parts.join(sep)`. */
  function Join(parts: seq<string>, sep: string): string
  {
    if |parts| == 0 then ""
    else if |parts| == 1 then parts[0]
    else parts[0] + sep + Join(parts[1..], sep)
  }

  /** Splitting loses nothing: joining the pieces back gives the input. */
  lemma {:induction false} JoinSplit(s: string, sep: string)
    requires |sep| >= 1
    ensures Join(Split(s, sep), sep) == s
    decreases |s|
  {
    var i := FindFrom(s, sep, 0);
    if i != -1 {
      var rest := s[i + |sep|..];
      JoinSplit(rest, sep);
      JoinCons(s[..i], Split(rest, sep), sep);
      CutAround(s, sep, i);
    }
  }

  lemma JoinCons(p: string, ps: seq<string>, sep: string)
    requires |ps| >= 1
    ensures Join([p] + ps, sep) == p + sep + Join(ps, sep)
  {
    assert ([p] + ps)[1..] == ps;
  }

  /** Cutting out an occurrence of `sep` and gluing it back. */
  lemma CutAround(s: string, sep: string, i: nat)
    requires OccursAt(s, sep, i)
    ensures s == s[..i] + sep + s[i + |sep|..]
  {
    assert s == s[..i] + s[i..i + |sep|] + s[i + |sep|..];
  }

  /** No piece of a split contains the separator. */
  lemma {:induction false} SplitPiecesFree(s: string, sep: string)
    requires |sep| >= 1
    ensures forall k :: 0 <= k < |Split(s, sep)| ==> FindFrom(Split(s, sep)[k], sep, 0) == -1
    decreases |s|
  {
    var i := FindFrom(s, sep, 0);
    if i != -1 {
      var rest := s[i + |sep|..];
      SplitPiecesFree(rest, sep);
      var head := s[..i];
      var h := FindFrom(head, sep, 0);
      if h != -1 {
        assert head[h..h + |sep|] == s[h..h + |sep|];
        assert OccursAt(s, sep, h);
      }
    }
  }

  /** Before the first separator of `p + sep + rest`, when `p` holds no
      character of the (one-character) separator. */
  lemma {:induction false} FindFromPrefix(p: string, sep: string, rest: string, from: nat)
    requires |sep| == 1 && sep[0] !in p && from <= |p|
    ensures FindFrom(p + sep + rest, sep, from) == |p|
    decreases |p| - from
  {
    var s := p + sep + rest;
    if from < |p| {
      assert s[from..from + 1][0] == p[from];
      FindFromPrefix(p, sep, rest, from + 1);
    } else {
      assert s[from..from + 1] == sep;
    }
  }

  /** A text without the separator's character has no occurrence of it. */
  lemma {:induction false} FindFromAbsent(p: string, sep: string, from: nat)
    requires |sep| == 1 && sep[0] !in p
    ensures FindFrom(p, sep, from) == -1
    decreases |p| - from
  {
    if from + 1 <= |p| {
      assert p[from..from + 1][0] == p[from];
      FindFromAbsent(p, sep, from + 1);
    }
  }

  /** Joining pieces free of a one-character separator and splitting again
      gives the pieces back. */
  lemma {:induction false} SplitJoin(parts: seq<string>, sep: string)
    requires |sep| == 1 && |parts| >= 1
    requires forall k :: 0 <= k < |parts| ==> sep[0] !in parts[k]
    ensures Split(Join(parts, sep), sep) == parts
  {
    if |parts| == 1 {
      FindFromAbsent(parts[0], sep, 0);
    } else {
      var p, rest := parts[0], Join(parts[1..], sep);
      var s := p + sep + rest;
      assert Join(parts, sep) == s;
      FindFromPrefix(p, sep, rest, 0);
      assert s[..|p|] == p;
      assert s[|p| + 1..] == rest;
      SplitJoin(parts[1..], sep);
      assert parts == [p] + parts[1..];
    }
  }

  /** `a + sep + b` splits into `a` and `b` when `sep` first occurs right after
      `a` and never in `b`. */
  lemma SplitAtFirst(a: string, sep: string, b: string)
    requires |sep| >= 1
    requires forall j :: 0 <= j < |a| ==> !OccursAt(a + sep + b, sep, j)
    requires forall j :: !OccursAt(b, sep, j)
    ensures Split(a + sep + b, sep) == [a, b]
  {
    var s := a + sep + b;
    assert OccursAt(s, sep, |a|);
    var i := FindFrom(s, sep, 0);
    assert i == |a|;
    assert s[i + |sep|..] == b;
    assert FindFrom(b, sep, 0) == -1;
    assert s[..i] == a;
  }

}
