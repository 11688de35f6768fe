/**
 * Phone-number masking (`mask_phone_numbers`, random_connect.py lines 50-78).
 *
 * Each rule of the source is a Python regular expression applied with `re.sub`.
 * All of them are concatenations of greedy quantified character classes plus, for
 * the final rule, the word-boundary assertion `\b`. For that fragment Python's
 * backtracking matcher is modelled exactly: at a start position it tries the
 * largest repeat count of the first item first and backs off one step at a time,
 * the first complete match wins, and `re.sub` scans left to right, resuming after
 * each match. Character classes are modelled on ASCII text.
 */
module Redact {
  import opened Optional
  import opened Text

  datatype CharClass = Digit | Space | Separator | Literal(c: char)

  /** `\d`, `\s`, `[-.\s]` and a literal character. */
  predicate InClass(cls: CharClass, c: char) {
    match cls
    case Digit => IsDigit(c)
    case Space => IsSpace(c)
    case Separator => c == '-' || c == '.' || IsSpace(c)
    case Literal(d) => c == d
  }

  /** A regex item: `cls{lo,hi}` repeated greedily (no upper bound when `hi` is None), or `\b`. */
  datatype Item = Rep(cls: CharClass, lo: nat, hi: Option<nat>) | WordBoundary

  type Pattern = seq<Item>

  function One(c: char): Item { Rep(Literal(c), 1, Some(1)) }
  function Maybe(cls: CharClass): Item { Rep(cls, 0, Some(1)) }
  function Digits(lo: nat, hi: nat): Item { Rep(Digit, lo, Some(hi)) }
  function AtLeastDigits(lo: nat): Item { Rep(Digit, lo, None) }

  /** `\+?\d{1,4}[-.\s]?\d{10,}` */
  const International: Pattern := [Maybe(Literal('+')), Digits(1, 4), Maybe(Separator), AtLeastDigits(10)]
  /** `\d{10,}` */
  const LongNumber: Pattern := [AtLeastDigits(10)]
  /** `\(\d{3}\)\s?\d{3}-?\d{4}` */
  const UsFormat: Pattern :=
    [One('('), Digits(3, 3), One(')'), Maybe(Space), Digits(3, 3), Maybe(Literal('-')), Digits(4, 4)]
  /** `\d{3}[-.\s]?\d{3}[-.\s]?\d{4}` */
  const ThreeThreeFour: Pattern :=
    [Digits(3, 3), Maybe(Separator), Digits(3, 3), Maybe(Separator), Digits(4, 4)]
  /** `\+91[-.\s]?\d{10}` */
  const IndiaPlus: Pattern := [One('+'), One('9'), One('1'), Maybe(Separator), Digits(10, 10)]
  /** `91[-.\s]?\d{10}` */
  const India: Pattern := [One('9'), One('1'), Maybe(Separator), Digits(10, 10)]
  /** `\d{5}[-.\s]?\d{5}` */
  const FiveFive: Pattern := [Digits(5, 5), Maybe(Separator), Digits(5, 5)]
  /** `\d{4}[-.\s]?\d{3}[-.\s]?\d{3}` */
  const FourThreeThree: Pattern :=
    [Digits(4, 4), Maybe(Separator), Digits(3, 3), Maybe(Separator), Digits(3, 3)]
  /** `\d{2}[-.\s]?\d{4}[-.\s]?\d{4}` */
  const TwoFourFour: Pattern :=
    [Digits(2, 2), Maybe(Separator), Digits(4, 4), Maybe(Separator), Digits(4, 4)]

  /** The rule list, in the order the source applies it. */
  const PhonePatterns: seq<Pattern> :=
    [International, LongNumber, UsFormat, ThreeThreeFour, IndiaPlus, India, FiveFive, FourThreeThree, TwoFourFour]

  /** The catch-all `\b\d{8,}\b` applied after the list. */
  const MinBareDigits := 8
  const BareNumber: Pattern := [WordBoundary, AtLeastDigits(MinBareDigits), WordBoundary]

  const Hidden := "[hidden]"

  /** How many characters of `cls` a greedy `cls{0,hi}` consumes from `i`. */
  function Span(cls: CharClass, s: string, i: nat, hi: Option<nat>): (k: nat)
    requires i <= |s|
    ensures i + k <= |s|
    ensures forall j :: i <= j < i + k ==> InClass(cls, s[j])
    ensures hi.Some? ==> k <= hi.value
    ensures i + k == |s| || hi == Some(k) || !InClass(cls, s[i + k])
    decreases |s| - i
  {
    if i == |s| || hi == Some(0) || !InClass(cls, s[i]) then 0
    else 1 + Span(cls, s, i + 1, if hi.Some? then Some(hi.value - 1) else None)
  }

  /** Length of the maximal run of digits starting at `i`. */
  function DigitRun(s: string, i: nat): nat
    requires i <= |s|
  {
    Span(Digit, s, i, None)
  }

  /** A run either is empty or continues one position further on. */
  lemma RunStep(s: string, i: nat)
    requires i < |s|
    ensures DigitRun(s, i) == if IsDigit(s[i]) then 1 + DigitRun(s, i + 1) else 0
  {
  }

  /** `\b` at position `j`: exactly one of the neighbouring characters is a word character. */
  predicate AtBoundary(s: string, j: nat)
    requires j <= |s|
  {
    (j > 0 && IsWordChar(s[j - 1])) != (j < |s| && IsWordChar(s[j]))
  }

  /** End of the first match of `p` anchored at `i`, in Python's backtracking order. */
  function MatchAt(p: Pattern, s: string, i: nat): (r: Option<nat>)
    requires i <= |s|
    ensures r.Some? ==> i <= r.value <= |s|
    decreases |p|, |s| - i + 1
  {
    if |p| == 0 then Some(i)
    else match p[0]
      case WordBoundary => if AtBoundary(s, i) then MatchAt(p[1..], s, i) else None
      case Rep(cls, lo, hi) => TryCounts(p, s, i, Span(cls, s, i, hi))
  }

  /** Tries the head item with `k`, `k - 1`, ..., `lo` repetitions, the rest of the pattern after each. */
  function TryCounts(p: Pattern, s: string, i: nat, k: nat): (r: Option<nat>)
    requires |p| > 0 && p[0].Rep? && i + k <= |s|
    ensures r.Some? ==> i <= r.value <= |s|
    decreases |p|, k
  {
    if k < p[0].lo then None
    else match MatchAt(p[1..], s, i + k)
      case Some(e) => Some(e)
      case None => if k == 0 then None else TryCounts(p, s, i, k - 1)
  }

  /** `re.sub(p, '[hidden]', s)` from position `i` on. None of the source's patterns can
      match the empty string, so an empty match is never replaced. */
  function SubFrom(p: Pattern, s: string, i: nat): string
    requires i <= |s|
    decreases |s| - i
  {
    if i == |s| then ""
    else
      var m := MatchAt(p, s, i);
      if m.Some? && m.value > i then Hidden + SubFrom(p, s, m.value)
      else [s[i]] + SubFrom(p, s, i + 1)
  }

  function Substitute(p: Pattern, s: string): string {
    SubFrom(p, s, 0)
  }

  /** The `for pattern in self.phone_patterns` loop. */
  function ApplyAll(ps: seq<Pattern>, s: string): string
    decreases |ps|
  {
    if |ps| == 0 then s else ApplyAll(ps[1..], Substitute(ps[0], s))
  }

  /** `mask_phone_numbers`. */
  function MaskPhoneNumbers(text: string): (r: string)
    ensures text == "" ==> r == text
  {
    if text == "" then text
    else Substitute(BareNumber, ApplyAll(PhonePatterns, text))
  }

  // ---------------------------------------------------------------------------
  // Digit runs

  /** No run of `n` or more consecutive digits anywhere in `t`. */
  ghost predicate ShortRuns(t: string, n: nat) {
    forall a: nat :: a <= |t| ==> DigitRun(t, a) < n
  }

  /** A run of at least eight digits starting at `a` whose left neighbour (or `leftOpen`
      at the start of `t`) and right neighbour are non-word characters or the text's ends. */
  predicate ExposedAt(t: string, a: nat, leftOpen: bool)
    requires a <= |t|
  {
    var k := DigitRun(t, a);
    && k >= MinBareDigits
    && (if a == 0 then leftOpen else !IsWordChar(t[a - 1]))
    && (a + k == |t| || !IsWordChar(t[a + k]))
  }

  /** A digit run `\b\d{8,}\b` would match in `t`. */
  predicate ExposedNumber(t: string, a: nat)
    requires a <= |t|
  {
    ExposedAt(t, a, true)
  }

  ghost predicate NoExposed(t: string, leftOpen: bool) {
    forall a: nat :: a <= |t| ==> !ExposedAt(t, a, leftOpen)
  }

  lemma {:induction false} RunAppend(x: string, y: string, a: nat)
    requires a <= |y|
    ensures DigitRun(x + y, |x| + a) == DigitRun(y, a)
    decreases |y| - a
  {
    if a < |y| {
      assert (x + y)[|x| + a] == y[a];
      RunAppend(x, y, a + 1);
    }
  }

  lemma RunCons(c: char, y: string)
    ensures DigitRun([c] + y, 0) == if IsDigit(c) then 1 + DigitRun(y, 0) else 0
  {
    assert ([c] + y)[0] == c;
    RunAppend([c], y, 0);
  }

  lemma {:induction false} RunDigitsThen(d: string, y: string, j: nat)
    requires j <= |d|
    requires forall k :: 0 <= k < |d| ==> IsDigit(d[k])
    ensures DigitRun(d + y, j) == |d| - j + DigitRun(y, 0)
    decreases |d| - j
  {
    if j == |d| {
      RunAppend(d, y, 0);
    } else {
      assert (d + y)[j] == d[j];
      RunDigitsThen(d, y, j + 1);
    }
  }

  lemma RunHidden(y: string, a: nat)
    requires a < |Hidden|
    ensures DigitRun(Hidden + y, a) == 0
  {
    assert (Hidden + y)[a] == Hidden[a];
  }

  /** `[hidden]` in front of text without long runs adds no long run. */
  lemma HiddenShort(rest: string, n: nat)
    requires n > 0 && ShortRuns(rest, n)
    ensures ShortRuns(Hidden + rest, n)
  {
    forall a: nat | a <= |Hidden + rest| ensures DigitRun(Hidden + rest, a) < n {
      if a < |Hidden| {
        RunHidden(rest, a);
      } else {
        RunAppend(Hidden, rest, a - |Hidden|);
      }
    }
  }

  /** One character in front of text without long runs adds no long run if the run it starts is short. */
  lemma ConsShort(c: char, rest: string, n: nat)
    requires ShortRuns(rest, n) && DigitRun([c] + rest, 0) < n
    ensures ShortRuns([c] + rest, n)
  {
    forall a: nat | a <= |[c] + rest| ensures DigitRun([c] + rest, a) < n {
      if a > 0 {
        RunAppend([c], rest, a - 1);
      }
    }
  }

  /** One step of `re.sub`: a non-empty match at `i` is replaced, otherwise `s[i]` is copied. */
  lemma SubFromHead(p: Pattern, s: string, i: nat)
    requires i < |s|
    ensures var m := MatchAt(p, s, i);
      && (m.Some? && m.value > i ==> SubFrom(p, s, i) == Hidden + SubFrom(p, s, m.value))
      && (!(m.Some? && m.value > i) ==> SubFrom(p, s, i) == [s[i]] + SubFrom(p, s, i + 1))
  {
  }

  /** Copying a character in front of a substitution's output adds no long run when the
      input's run there is short. */
  lemma CopiedShort(p: Pattern, s: string, i: nat, n: nat)
    requires i < |s| && DigitRun(s, i) < n
    requires ShortRuns(SubFrom(p, s, i + 1), n)
    ensures ShortRuns([s[i]] + SubFrom(p, s, i + 1), n)
  {
    var rest := SubFrom(p, s, i + 1);
    SubFromStart(p, s, i + 1);
    RunCons(s[i], rest);
    RunStep(s, i);
    ConsShort(s[i], rest, n);
  }

  /** Whatever `p` matches, the output of a substitution starts with no more digits than the input. */
  lemma {:induction false} SubFromStart(p: Pattern, s: string, i: nat)
    requires i <= |s|
    ensures DigitRun(SubFrom(p, s, i), 0) <= DigitRun(s, i)
    decreases |s| - i
  {
    if i < |s| {
      var m := MatchAt(p, s, i);
      if m.Some? && m.value > i {
        StartReplaced(p, s, i);
      } else {
        SubFromStart(p, s, i + 1);
        StartCopied(p, s, i);
      }
    }
  }

  /** A match at `i` puts `[hidden]` first, which starts with no digit. */
  lemma StartReplaced(p: Pattern, s: string, i: nat)
    requires i < |s|
    requires MatchAt(p, s, i).Some? && MatchAt(p, s, i).value > i
    ensures DigitRun(SubFrom(p, s, i), 0) == 0
  {
    SubFromHead(p, s, i);
    RunHidden(SubFrom(p, s, MatchAt(p, s, i).value), 0);
  }

  /** Without a match at `i` the character there is copied, so the run grows by at most
      the one the input has. */
  lemma StartCopied(p: Pattern, s: string, i: nat)
    requires i < |s|
    requires !(MatchAt(p, s, i).Some? && MatchAt(p, s, i).value > i)
    requires DigitRun(SubFrom(p, s, i + 1), 0) <= DigitRun(s, i + 1)
    ensures DigitRun(SubFrom(p, s, i), 0) <= DigitRun(s, i)
  {
    SubFromHead(p, s, i);
    RunCons(s[i], SubFrom(p, s, i + 1));
    RunStep(s, i);
  }

  /** Whatever `p` matches, replacing matches by `[hidden]` never lengthens a digit run:
      if no suffix of the input has a run of `n` digits, neither does the output. */
  lemma {:induction false} SubFromRuns(p: Pattern, s: string, i: nat, n: nat)
    requires i <= |s|
    requires forall a: nat :: i <= a <= |s| ==> DigitRun(s, a) < n
    ensures ShortRuns(SubFrom(p, s, i), n)
    decreases |s| - i
  {
    assert DigitRun(s, i) < n;
    if i < |s| {
      var m := MatchAt(p, s, i);
      SubFromHead(p, s, i);
      if m.Some? && m.value > i {
        SubFromRuns(p, s, m.value, n);
        HiddenShort(SubFrom(p, s, m.value), n);
      } else {
        SubFromRuns(p, s, i + 1, n);
        CopiedShort(p, s, i, n);
      }
    }
  }

  lemma {:induction false} ApplyAllRuns(ps: seq<Pattern>, s: string, n: nat)
    requires ShortRuns(s, n)
    ensures ShortRuns(ApplyAll(ps, s), n)
    decreases |ps|
  {
    if |ps| > 0 {
      SubFromRuns(ps[0], s, 0, n);
      ApplyAllRuns(ps[1..], Substitute(ps[0], s), n);
    }
  }

  /** `\d{n,}` matches at `i` exactly when a run of at least `n` digits starts there, and it takes the whole run. */
  lemma MatchAtLeastDigits(s: string, i: nat, n: nat)
    requires i <= |s|
    ensures MatchAt([AtLeastDigits(n)], s, i)
         == if DigitRun(s, i) >= n then Some(i + DigitRun(s, i)) else None
  {
    var p := [AtLeastDigits(n)];
    var k := DigitRun(s, i);
    assert p[1..] == [];
    assert MatchAt(p, s, i) == TryCounts(p, s, i, k);
    if k >= n {
      assert MatchAt(p[1..], s, i + k) == Some(i + k);
    }
  }

  /** The rule `\d{10,}` leaves no run of ten digits. */
  lemma {:induction false} LongNumberClears(s: string, i: nat)
    requires i <= |s|
    ensures ShortRuns(SubFrom(LongNumber, s, i), 10)
    decreases |s| - i
  {
    if i < |s| {
      var k := DigitRun(s, i);
      MatchAtLeastDigits(s, i, 10);
      assert LongNumber == [AtLeastDigits(10)];
      SubFromHead(LongNumber, s, i);
      if k >= 10 {
        LongNumberClears(s, i + k);
        HiddenShort(SubFrom(LongNumber, s, i + k), 10);
      } else {
        LongNumberClears(s, i + 1);
        CopiedShort(LongNumber, s, i, 10);
      }
    }
  }

  /** After masking, no run of ten or more consecutive digits remains: the rule `\d{10,}`
      removes them and every later rule only swaps text for the digit-free `[hidden]`. */
  lemma MaskLeavesNoLongRun(text: string)
    ensures ShortRuns(MaskPhoneNumbers(text), 10)
  {
    if text != "" {
      var t1 := Substitute(International, text);
      var t2 := Substitute(LongNumber, t1);
      LongNumberClears(t1, 0);
      assert PhonePatterns[0] == International && PhonePatterns[1..][0] == LongNumber;
      assert ApplyAll(PhonePatterns, text) == ApplyAll(PhonePatterns[1..], t1);
      assert ApplyAll(PhonePatterns[1..], t1) == ApplyAll(PhonePatterns[1..][1..], t2);
      ApplyAllRuns(PhonePatterns[1..][1..], t2, 10);
      SubFromRuns(BareNumber, ApplyAll(PhonePatterns, text), 0, 10);
    }
  }

  // ---------------------------------------------------------------------------
  // The catch-all rule `\b\d{8,}\b`

  lemma {:induction false} BareTryBelowRun(s: string, i: nat, k: nat)
    requires i <= |s|
    requires i + DigitRun(s, i) <= |s|
    requires k < DigitRun(s, i)
    ensures TryCounts(BareNumber[1..], s, i, k) == None
    decreases k
  {
    var q := BareNumber[1..];
    assert q[1..] == [WordBoundary];
    if k >= MinBareDigits {
      assert IsDigit(s[i + k - 1]) && IsDigit(s[i + k]);
      assert !AtBoundary(s, i + k);
      assert MatchAt(q[1..], s, i + k) == None;
      BareTryBelowRun(s, i, k - 1);
    }
  }

  /** `\b\d{8,}\b` matches at `i` exactly when a boundary precedes a run of at least
      eight digits that a boundary also follows; the match is the whole run. */
  lemma MatchBare(s: string, i: nat)
    requires i <= |s|
    ensures var k := DigitRun(s, i);
      MatchAt(BareNumber, s, i)
        == if AtBoundary(s, i) && k >= MinBareDigits && AtBoundary(s, i + k) then Some(i + k) else None
  {
    var k := DigitRun(s, i);
    var q := BareNumber[1..];
    assert q[1..] == [WordBoundary] && q[1..][1..] == [];
    if AtBoundary(s, i) {
      assert MatchAt(BareNumber, s, i) == MatchAt(q, s, i) == TryCounts(q, s, i, k);
      if k >= MinBareDigits {
        assert MatchAt(q[1..], s, i + k) == if AtBoundary(s, i + k) then Some(i + k) else None;
        if !AtBoundary(s, i + k) {
          BareTryBelowRun(s, i, k - 1);
        }
      }
    }
  }

  lemma BareKeepsNonDigit(s: string, j: nat)
    requires j < |s| && !IsDigit(s[j])
    ensures SubFrom(BareNumber, s, j) == [s[j]] + SubFrom(BareNumber, s, j + 1)
  {
    MatchBare(s, j);
  }

  /** A digit preceded by a digit is not at a word boundary, so the catch-all rule copies it. */
  lemma BareCopiesDigit(s: string, j: nat)
    requires 0 < j < |s| && IsDigit(s[j - 1]) && IsDigit(s[j])
    ensures SubFrom(BareNumber, s, j) == [s[j]] + SubFrom(BareNumber, s, j + 1)
  {
    MatchBare(s, j);
    assert !AtBoundary(s, j);
    SubFromHead(BareNumber, s, j);
  }

  /** Inside a digit run the catch-all rule cannot start a match, so it copies the run. */
  lemma {:induction false} BareCopiesRun(s: string, j: nat, k: nat)
    requires 0 < j && j + k <= |s|
    requires forall i :: j - 1 <= i < j + k ==> IsDigit(s[i])
    ensures SubFrom(BareNumber, s, j) == s[j..j + k] + SubFrom(BareNumber, s, j + k)
    decreases k
  {
    var x := SubFrom(BareNumber, s, j + k);
    if k > 0 {
      BareCopiesDigit(s, j);
      BareCopiesRun(s, j + 1, k - 1);
      SliceCons(s, j, k, x);
    } else {
      assert s[j..j] + x == x;
    }
  }

  lemma SliceCons(s: string, j: nat, k: nat, x: string)
    requires j < j + k <= |s|
    ensures [s[j]] + (s[j + 1..j + k] + x) == s[j..j + k] + x
  {
    assert s[j..j + k] == [s[j]] + s[j + 1..j + k];
  }

  /** Past the first character, exposure in `[c] + y` is exposure in `y`, with `c` as left neighbour. */
  lemma ExposedCons(c: char, y: string, a: nat, leftOpen: bool)
    requires 0 < a <= |y| + 1
    ensures ExposedAt([c] + y, a, leftOpen) == ExposedAt(y, a - 1, !IsWordChar(c))
  {
    var o := [c] + y;
    RunAppend([c], y, a - 1);
    assert o[a - 1] == if a == 1 then c else y[a - 2];
    var r := DigitRun(y, a - 1);
    if a + r < |o| {
      assert o[a + r] == y[a - 1 + r];
    }
  }

  /** Past `[hidden]`, exposure in `[hidden] + y` is exposure in `y`, whose left neighbour is `]`. */
  lemma ExposedAfterHidden(y: string, b: nat, leftOpen: bool)
    requires 0 < b <= |y|
    ensures ExposedAt(Hidden + y, |Hidden| + b, leftOpen) == ExposedAt(y, b, false)
  {
    var o := Hidden + y;
    var a := |Hidden| + b;
    RunAppend(Hidden, y, b);
    assert o[a - 1] == y[b - 1];
    var r := DigitRun(y, b);
    if a + r < |o| {
      assert o[a + r] == y[b + r];
    }
  }

  /** Replacing a run bounded on the right: `[hidden]` followed by a piece that starts
      with a non-digit keeps the piece free of exposed runs. */
  lemma BareClearsReplaced(s: string, i: nat, e: nat, left: bool)
    requires i < e <= |s| && IsDigit(s[e - 1])
    requires e == |s| || !IsDigit(s[e])
    requires NoExposed(SubFrom(BareNumber, s, e), false)
    ensures NoExposed(Hidden + SubFrom(BareNumber, s, e), left)
  {
    var rest := SubFrom(BareNumber, s, e);
    var o := Hidden + rest;
    SubFromStart(BareNumber, s, e);
    assert DigitRun(rest, 0) == 0;
    forall a: nat | a <= |o| ensures !ExposedAt(o, a, left) {
      if a < |Hidden| {
        RunHidden(rest, a);
      } else {
        var b := a - |Hidden|;
        RunAppend(Hidden, rest, b);
        if b > 0 {
          ExposedAfterHidden(rest, b, left);
        }
      }
    }
  }

  lemma BareKeepsUnmatched(s: string, i: nat)
    requires i < |s| && MatchAt(BareNumber, s, i) == None
    ensures SubFrom(BareNumber, s, i) == [s[i]] + SubFrom(BareNumber, s, i + 1)
  {
  }

  /** Where the catch-all rule does not match at a digit, it copies that digit's whole run. */
  lemma BareKeepsRun(s: string, i: nat)
    requires i < |s| && IsDigit(s[i]) && MatchAt(BareNumber, s, i) == None
    ensures i + DigitRun(s, i) <= |s|
    ensures SubFrom(BareNumber, s, i) == s[i..i + DigitRun(s, i)] + SubFrom(BareNumber, s, i + DigitRun(s, i))
  {
    var k := DigitRun(s, i);
    RunDigits(s, i);
    BareKeepsUnmatched(s, i);
    BareCopiesRun(s, i + 1, k - 1);
    ConsSlice(s, i, k, SubFrom(BareNumber, s, i), SubFrom(BareNumber, s, i + 1), SubFrom(BareNumber, s, i + k));
  }

  /** A run starting at a digit is not empty and holds only digits. */
  lemma RunDigits(s: string, i: nat)
    requires i < |s| && IsDigit(s[i])
    ensures 0 < DigitRun(s, i) && i + DigitRun(s, i) <= |s|
    ensures forall j :: i <= j < i + DigitRun(s, i) ==> IsDigit(s[j])
  {
    RunStep(s, i);
  }

  /** Putting `s[i]` in front of a copy of `s[i + 1..i + k]` gives a copy of `s[i..i + k]`. */
  lemma ConsSlice(s: string, i: nat, k: nat, o: string, y: string, x: string)
    requires 0 < k && i + k <= |s|
    requires o == [s[i]] + y && y == s[i + 1..i + k] + x
    ensures o == s[i..i + k] + x
  {
    SliceCons(s, i, k, x);
  }

  /** A run the catch-all rule copies keeps its length in the output and is followed there
      by the same character as in the input. */
  lemma BareKeptPrefix(s: string, i: nat)
    requires i < |s| && IsDigit(s[i]) && MatchAt(BareNumber, s, i) == None
    ensures var k := DigitRun(s, i);
      var o := SubFrom(BareNumber, s, i);
      && DigitRun(o, 0) == k
      && (i + k < |s| ==> k < |o| && o[k] == s[i + k])
  {
    var k := DigitRun(s, i);
    BareKeepsRun(s, i);
    var after := SubFrom(BareNumber, s, i + k);
    SubFromStart(BareNumber, s, i + k);
    if i + k < |s| {
      BareKeepsNonDigit(s, i + k);
      RunStep(s, i + k);
    }
    KeptShape(s, i, after);
  }

  /** A maximal digit run followed by a piece that starts with no digit, and with the
      character that ended the run if there was one. */
  lemma KeptShape(s: string, i: nat, after: string)
    requires i < |s| && i + DigitRun(s, i) <= |s|
    requires DigitRun(after, 0) == 0
    requires i + DigitRun(s, i) < |s| ==> |after| > 0 && after[0] == s[i + DigitRun(s, i)]
    ensures var k := DigitRun(s, i);
      && DigitRun(s[i..i + k] + after, 0) == k
      && (i + k < |s| ==> k < |s[i..i + k] + after| && (s[i..i + k] + after)[k] == s[i + k])
  {
    var k := DigitRun(s, i);
    var d := s[i..i + k];
    assert forall j :: i <= j < i + k ==> IsDigit(s[j]);
    assert forall j :: 0 <= j < |d| ==> d[j] == s[i + j];
    RunDigitsThen(d, after, 0);
  }

  /** A digit at a run start that the catch-all rule left in place is not the start of an
      exposed run of the output. */
  lemma BareKeptStart(s: string, i: nat)
    requires i < |s| && IsDigit(s[i]) && (i == 0 || !IsWordChar(s[i - 1]))
    requires MatchAt(BareNumber, s, i) == None
    ensures !ExposedAt(SubFrom(BareNumber, s, i), 0, true)
  {
    var k := DigitRun(s, i);
    MatchBare(s, i);
    assert AtBoundary(s, i);
    BareKeptPrefix(s, i);
    if k >= MinBareDigits {
      // the match failed only because a word character follows the run
      assert i + k < |s| && IsWordChar(s[i + k]);
    }
  }

  /** Keeping one character in front of a clean piece keeps the whole clean. */
  lemma BareClearsKept(s: string, i: nat, left: bool)
    requires i < |s|
    requires left == (i == 0 || !IsWordChar(s[i - 1]))
    requires MatchAt(BareNumber, s, i) == None
    requires NoExposed(SubFrom(BareNumber, s, i + 1), !IsWordChar(s[i]))
    ensures NoExposed([s[i]] + SubFrom(BareNumber, s, i + 1), left)
  {
    var rest := SubFrom(BareNumber, s, i + 1);
    var o := [s[i]] + rest;
    BareKeepsUnmatched(s, i);
    forall a: nat | a <= |o| ensures !ExposedAt(o, a, left) {
      if a > 0 {
        ExposedCons(s[i], rest, a, left);
      } else if IsDigit(s[i]) && left {
        BareKeptStart(s, i);
      } else {
        RunCons(s[i], rest);
      }
    }
  }

  /** The output of the catch-all rule from `i` on holds no exposed run, where the left
      neighbour of its first character counts as non-word when `s[i - 1]` is one. */
  lemma {:induction false} BareClears(s: string, i: nat)
    requires i <= |s|
    ensures NoExposed(SubFrom(BareNumber, s, i), i == 0 || !IsWordChar(s[i - 1]))
    decreases |s| - i
  {
    var left := i == 0 || !IsWordChar(s[i - 1]);
    if i < |s| {
      var k := DigitRun(s, i);
      MatchBare(s, i);
      var m := MatchAt(BareNumber, s, i);
      if m.Some? {
        BareClears(s, i + k);
        BareClearsReplaced(s, i, i + k, left);
      } else {
        BareClears(s, i + 1);
        BareClearsKept(s, i, left);
      }
    }
  }

  /** After masking, no run of eight or more digits with a non-word character (or an
      end of the text) on both sides remains. */
  lemma MaskHidesBareNumbers(text: string)
    ensures forall a: nat :: a <= |MaskPhoneNumbers(text)| ==> !ExposedNumber(MaskPhoneNumbers(text), a)
  {
    if text != "" {
      BareClears(ApplyAll(PhonePatterns, text), 0);
    }
  }
}
