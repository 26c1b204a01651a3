/** rpm's version comparison, and the order it turns out to be. */
module RpmVersion {
  import opened Options
  import opened TextOrder

  predicate IsDigit(c: char) { '0' <= c <= '9' }

  predicate IsAlpha(c: char) { ('a' <= c <= 'z') || ('A' <= c <= 'Z') }

  predicate IsAlnum(c: char) { IsDigit(c) || IsAlpha(c) }

  /** Carries no weight: neither alphanumeric nor one of the operators `~` and `^`. */
  predicate IsSeparator(c: char) { !IsAlnum(c) && c != '~' && c != '^' }

  // ── The reference: a version is a list of tokens ─────────────────────

  datatype Token = Tilde | Caret | Word(text: string) | Number(value: nat)

  /** Where the maximal digit run starting at `i` ends. */
  function DigitEnd(s: string, i: nat): (e: nat)
    requires i <= |s|
    ensures i <= e <= |s| && (forall k :: i <= k < e ==> IsDigit(s[k])) && (e < |s| ==> !IsDigit(s[e]))
    decreases |s| - i
  {
    if i < |s| && IsDigit(s[i]) then DigitEnd(s, i + 1) else i
  }

  function AlphaEnd(s: string, i: nat): (e: nat)
    requires i <= |s|
    ensures i <= e <= |s| && (forall k :: i <= k < e ==> IsAlpha(s[k])) && (e < |s| ==> !IsAlpha(s[e]))
    decreases |s| - i
  {
    if i < |s| && IsAlpha(s[i]) then AlphaEnd(s, i + 1) else i
  }

  function DigitValue(c: char): (d: nat)
    ensures d <= 9
  {
    if IsDigit(c) then c as int - '0' as int else 0
  }

  /** Reading digits left to right, `acc` being what has been read. */
  function ValueFrom(s: string, acc: nat): nat {
    if s == "" then acc else ValueFrom(s[1..], acc * 10 + DigitValue(s[0]))
  }

  /** The integer a digit run denotes in base ten. */
  function Value(s: string): nat {
    ValueFrom(s, 0)
  }

  /** Maximal runs of one kind and the two operators from `i` on, separators dropped. */
  function TokensFrom(s: string, i: nat): seq<Token>
    requires i <= |s|
    decreases |s| - i
  {
    if i == |s| then []
    else if s[i] == '~' then [Tilde] + TokensFrom(s, i + 1)
    else if s[i] == '^' then [Caret] + TokensFrom(s, i + 1)
    else if IsDigit(s[i]) then [Number(Value(s[i..DigitEnd(s, i)]))] + TokensFrom(s, DigitEnd(s, i))
    else if IsAlpha(s[i]) then [Word(s[i..AlphaEnd(s, i)])] + TokensFrom(s, AlphaEnd(s, i))
    else TokensFrom(s, i + 1)
  }

  function Tokens(s: string): seq<Token> {
    TokensFrom(s, 0)
  }

  function CompareInts(a: int, b: int): int {
    if a < b then -1 else if b < a then 1 else 0
  }

  function CompareText(a: string, b: string): int {
    if a == b then 0 else if Less(b, a) then 1 else -1
  }

  /** `~` before the end, the end before `^`, `^` before letters, letters before numbers. */
  function Rank(ts: seq<Token>): int {
    if ts == [] then 1
    else match ts[0]
      case Tilde => 0
      case Caret => 2
      case Word(_) => 3
      case Number(_) => 4
  }

  function CompareToken(a: Token, b: Token): int {
    match (a, b)
    case (Word(x), Word(y)) => CompareText(x, y)
    case (Number(x), Number(y)) => CompareInts(x, y)
    case _ => 0
  }

  /** Lexicographic: the first position where the lists differ decides. */
  function CompareTokens(xs: seq<Token>, ys: seq<Token>): int {
    if Rank(xs) != Rank(ys) then CompareInts(Rank(xs), Rank(ys))
    else if xs == [] || ys == [] then 0
    else if CompareToken(xs[0], ys[0]) != 0 then CompareToken(xs[0], ys[0])
    else CompareTokens(xs[1..], ys[1..])
  }

  function VersionCompare(one: string, two: string): int {
    CompareTokens(Tokens(one), Tokens(two))
  }

  // ── It is a total preorder ───────────────────────────────────────────

  lemma CompareTextOrder(a: string, b: string, c: string)
    ensures CompareText(a, b) == -CompareText(b, a)
    ensures CompareText(a, b) == 0 <==> a == b
    ensures CompareText(a, b) <= 0 && CompareText(b, c) <= 0 ==> CompareText(a, c) <= 0
  {
    LessTotal(a, b); LessTotal(b, c); LessTotal(a, c);
    LessIrreflexive(a); LessIrreflexive(b);
    if Less(a, b) && Less(b, a) { LessTransitive(a, b, a); }
    if Less(a, b) && Less(b, c) { LessTransitive(a, b, c); }
    if Less(a, b) && Less(b, c) && Less(c, a) { LessTransitive(a, c, a); }
  }

  lemma {:induction false} CompareTokensAntisymmetric(xs: seq<Token>, ys: seq<Token>)
    ensures CompareTokens(xs, ys) == -CompareTokens(ys, xs)
  {
    if xs != [] && ys != [] && Rank(xs) == Rank(ys) {
      if xs[0].Word? { CompareTextOrder(xs[0].text, ys[0].text, ""); }
      CompareTokensAntisymmetric(xs[1..], ys[1..]);
    }
  }

  lemma {:induction false} CompareTokensZero(xs: seq<Token>, ys: seq<Token>)
    ensures CompareTokens(xs, ys) == 0 <==> xs == ys
  {
    if xs != [] && ys != [] && Rank(xs) == Rank(ys) {
      if xs[0].Word? { CompareTextOrder(xs[0].text, ys[0].text, ""); }
      CompareTokensZero(xs[1..], ys[1..]);
      assert xs == [xs[0]] + xs[1..] && ys == [ys[0]] + ys[1..];
    }
  }

  lemma {:induction false} CompareTokensTransitive(xs: seq<Token>, ys: seq<Token>, zs: seq<Token>)
    requires CompareTokens(xs, ys) <= 0 && CompareTokens(ys, zs) <= 0
    ensures CompareTokens(xs, zs) <= 0
  {
    if xs != [] && ys != [] && zs != [] && Rank(xs) == Rank(ys) == Rank(zs) {
      var x, y, z := xs[0], ys[0], zs[0];
      if x.Word? {
        CompareTextOrder(x.text, y.text, z.text);
        CompareTextOrder(y.text, z.text, x.text);
        CompareTextOrder(x.text, z.text, y.text);
      }
      if CompareToken(x, y) == 0 && CompareToken(y, z) == 0 {
        CompareTokensTransitive(xs[1..], ys[1..], zs[1..]);
      }
    }
  }

  /** `rpmvercmp` orders versions totally, and only versions with the same tokens tie. */
  lemma VersionTotalPreorder(a: string, b: string, c: string)
    ensures -1 <= VersionCompare(a, b) <= 1
    ensures VersionCompare(a, b) == -VersionCompare(b, a)
    ensures VersionCompare(a, b) == 0 <==> Tokens(a) == Tokens(b)
    ensures VersionCompare(a, b) <= 0 && VersionCompare(b, c) <= 0 ==> VersionCompare(a, c) <= 0
  {
    CompareTokensAntisymmetric(Tokens(a), Tokens(b));
    CompareTokensZero(Tokens(a), Tokens(b));
    CompareTokensBounded(Tokens(a), Tokens(b));
    if VersionCompare(a, b) <= 0 && VersionCompare(b, c) <= 0 {
      CompareTokensTransitive(Tokens(a), Tokens(b), Tokens(c));
    }
  }

  lemma {:induction false} CompareTokensBounded(xs: seq<Token>, ys: seq<Token>)
    ensures -1 <= CompareTokens(xs, ys) <= 1
  {
    if xs != [] && ys != [] { CompareTokensBounded(xs[1..], ys[1..]); }
  }

  // ── Numbers of any length ────────────────────────────────────────────

  predicate AllDigits(s: string) {
    forall k :: 0 <= k < |s| ==> IsDigit(s[k])
  }

  /** `s.lstrip("0")` */
  function StripZeros(s: string): (r: string)
    ensures |r| <= |s| && r == s[|s| - |r|..]
    ensures r == "" || r[0] != '0'
    ensures forall k :: 0 <= k < |s| - |r| ==> s[k] == '0'
  {
    if s != "" && s[0] == '0' then StripZeros(s[1..]) else s
  }

  lemma {:induction false} StripKeepsValue(s: string)
    ensures Value(StripZeros(s)) == Value(s)
  {
    if s != "" && s[0] == '0' { StripKeepsValue(s[1..]); }
  }

  /** A larger prefix stays larger, whatever equally many digits follow. */
  lemma {:induction false} LargerPrefix(a: string, m: nat, b: string, n: nat)
    requires |a| == |b| && m < n
    ensures ValueFrom(a, m) < ValueFrom(b, n)
  {
    if a != "" { LargerPrefix(a[1..], m * 10 + DigitValue(a[0]), b[1..], n * 10 + DigitValue(b[0])); }
  }

  /** More digits after a nonzero prefix outweigh fewer. */
  lemma {:induction false} LongerIsLarger(a: string, b: string, n: nat)
    requires |a| <= |b| && n > 0
    ensures ValueFrom(a, 0) < ValueFrom(b, n)
  {
    if |a| == |b| {
      LargerPrefix(a, 0, b, n);
    } else {
      LongerIsLarger(a, b[1..], n * 10 + DigitValue(b[0]));
    }
  }

  /** At equal length, text order is number order. */
  lemma {:induction false} SameLengthText(a: string, b: string, n: nat)
    requires AllDigits(a) && AllDigits(b) && |a| == |b|
    ensures CompareText(a, b) == CompareInts(ValueFrom(a, n), ValueFrom(b, n))
  {
    if a != "" {
      var x, y := n * 10 + DigitValue(a[0]), n * 10 + DigitValue(b[0]);
      if x < y {
        LargerPrefix(a[1..], x, b[1..], y);
      } else if y < x {
        LargerPrefix(b[1..], y, a[1..], x);
      } else {
        SameLengthText(a[1..], b[1..], x);
        assert a == [a[0]] + a[1..] && b == [b[0]] + b[1..];
      }
    }
  }

  /** Stripping zeros, then length, then text: the comparison of the integers themselves. */
  function CompareDigits(a: string, b: string): int {
    var x, y := StripZeros(a), StripZeros(b);
    if |x| != |y| then (if |x| > |y| then 1 else -1) else CompareText(x, y)
  }

  /** Without a leading zero, fewer digits are less. */
  lemma ShorterIsLess(x: string, y: string)
    requires AllDigits(y) && |x| < |y| && y[0] != '0'
    ensures Value(x) < Value(y)
  {
    assert ValueFrom(y, 0) == ValueFrom(y[1..], DigitValue(y[0]));
    LongerIsLarger(x, y[1..], DigitValue(y[0]));
  }

  lemma StrippedDigits(s: string)
    requires AllDigits(s)
    ensures AllDigits(StripZeros(s)) && Value(StripZeros(s)) == Value(s)
  {
    StripKeepsValue(s);
    var r := StripZeros(s);
    assert forall k :: 0 <= k < |r| ==> r[k] == s[|s| - |r| + k];
  }

  lemma CompareDigitsIsNumeric(a: string, b: string)
    requires AllDigits(a) && AllDigits(b)
    ensures CompareDigits(a, b) == CompareInts(Value(a), Value(b))
  {
    var x, y := StripZeros(a), StripZeros(b);
    StrippedDigits(a);
    StrippedDigits(b);
    if |x| < |y| {
      ShorterIsLess(x, y);
    } else if |y| < |x| {
      ShorterIsLess(y, x);
    } else {
      SameLengthText(x, y, 0);
    }
  }

  // ── The two-cursor loop ──────────────────────────────────────────────

  method SkipSeparators(s: string, start: nat) returns (i: nat)
    requires start <= |s|
    ensures start <= i <= |s| && (i < |s| ==> !IsSeparator(s[i]))
    ensures TokensFrom(s, i) == TokensFrom(s, start)
  {
    i := start;
    while i < |s| && !IsAlnum(s[i]) && s[i] != '~' && s[i] != '^'
      invariant start <= i <= |s| && TokensFrom(s, i) == TokensFrom(s, start)
    {
      i := i + 1;
    }
  }

  /** The end of the maximal digit run, or alphabetic run, that begins at `start`. */
  method RunEnd(s: string, start: nat, numeric: bool) returns (i: nat)
    requires start <= |s|
    ensures i == if numeric then DigitEnd(s, start) else AlphaEnd(s, start)
  {
    i := start;
    if numeric {
      while i < |s| && IsDigit(s[i])
        invariant start <= i <= |s| && DigitEnd(s, start) == DigitEnd(s, i)
      {
        i := i + 1;
      }
    } else {
      while i < |s| && IsAlpha(s[i])
        invariant start <= i <= |s| && AlphaEnd(s, start) == AlphaEnd(s, i)
      {
        i := i + 1;
      }
    }
  }

  /** Two segments of one kind: by value if numeric, by text if not. */
  method CompareSegment(one: string, two: string, numeric: bool) returns (r: int)
    requires numeric ==> AllDigits(one) && AllDigits(two)
    ensures r == if numeric then CompareInts(Value(one), Value(two)) else CompareText(one, two)
  {
    var segOne, segTwo := one, two;
    if numeric {
      CompareDigitsIsNumeric(one, two);
      segOne, segTwo := StripZeros(one), StripZeros(two);
      if |segOne| != |segTwo| {
        return if |segOne| > |segTwo| then 1 else -1;
      }
    }
    if segOne != segTwo {
      return if Less(segTwo, segOne) then 1 else -1;
    }
    return 0;
  }

  /** The lists at two cursors, compared by their first tokens and then by the rest. */
  lemma CompareStep(x: Token, xs: seq<Token>, y: Token, ys: seq<Token>)
    ensures CompareTokens([x] + xs, [y] + ys) ==
      if Rank([x]) != Rank([y]) then CompareInts(Rank([x]), Rank([y]))
      else if CompareToken(x, y) != 0 then CompareToken(x, y)
      else CompareTokens(xs, ys)
  {
    assert ([x] + xs)[1..] == xs && ([y] + ys)[1..] == ys;
  }

  function Kind(s: string, i: nat): int
    requires i < |s|
  {
    if s[i] == '~' then 0 else if s[i] == '^' then 2 else if IsDigit(s[i]) then 4 else 3
  }

  lemma RankAt(s: string, i: nat)
    requires i <= |s| && (i < |s| ==> !IsSeparator(s[i]))
    ensures Rank(TokensFrom(s, i)) == if i < |s| then Kind(s, i) else 1
  {
  }

  /** Both cursors on segments: compare them, or report a tie and step past both. */
  method CompareSegments(one: string, i: nat, two: string, j: nat) returns (r: int, i': nat, j': nat)
    requires i < |one| && IsAlnum(one[i]) && j < |two| && IsAlnum(two[j])
    ensures i < i' <= |one| && j <= j' <= |two|
    ensures r != 0 ==> r == CompareTokens(TokensFrom(one, i), TokensFrom(two, j))
    ensures r == 0 ==>
      CompareTokens(TokensFrom(one, i'), TokensFrom(two, j')) == CompareTokens(TokensFrom(one, i), TokensFrom(two, j))
  {
    RankAt(one, i);
    RankAt(two, j);
    var numeric := IsDigit(one[i]);
    i' := RunEnd(one, i, numeric);
    j' := RunEnd(two, j, numeric);
    assert i < i';
    if j' == j {
      r := if numeric then 1 else -1;
      return;
    }
    r := CompareSegment(one[i..i'], two[j..j'], numeric);
    ghost var x := if numeric then Number(Value(one[i..i'])) else Word(one[i..i']);
    ghost var y := if numeric then Number(Value(two[j..j'])) else Word(two[j..j']);
    assert TokensFrom(one, i) == [x] + TokensFrom(one, i');
    assert TokensFrom(two, j) == [y] + TokensFrom(two, j');
    CompareStep(x, TokensFrom(one, i'), y, TokensFrom(two, j'));
  }

  /** One operator on both sides ties and is stepped over. */
  lemma StepOperator(one: string, i: nat, two: string, j: nat)
    requires i < |one| && j < |two| && one[i] == two[j] && one[i] in ['~', '^']
    ensures CompareTokens(TokensFrom(one, i), TokensFrom(two, j))
         == CompareTokens(TokensFrom(one, i + 1), TokensFrom(two, j + 1))
  {
    var t := if one[i] == '~' then Tilde else Caret;
    CompareStep(t, TokensFrom(one, i + 1), t, TokensFrom(two, j + 1));
  }

  /** Different kinds at the cursors decide at once. */
  lemma KindsDecide(one: string, i: nat, two: string, j: nat)
    requires i <= |one| && (i < |one| ==> !IsSeparator(one[i]))
    requires j <= |two| && (j < |two| ==> !IsSeparator(two[j]))
    ensures var a, b := if i < |one| then Kind(one, i) else 1, if j < |two| then Kind(two, j) else 1;
      && (a != b ==> CompareTokens(TokensFrom(one, i), TokensFrom(two, j)) == CompareInts(a, b))
      && (i == |one| && j == |two| ==> CompareTokens(TokensFrom(one, i), TokensFrom(two, j)) == 0)
  {
    RankAt(one, i);
    RankAt(two, j);
  }

  method Rpmvercmp(one: string, two: string) returns (r: int)
    ensures r == VersionCompare(one, two)
  {
    if one == two {
      CompareTokensZero(Tokens(one), Tokens(two));
      return 0;
    }
    var i, j := 0, 0;
    while i < |one| || j < |two|
      invariant 0 <= i <= |one| && 0 <= j <= |two|
      invariant CompareTokens(TokensFrom(one, i), TokensFrom(two, j)) == VersionCompare(one, two)
      decreases |one| - i + |two| - j
    {
      i := SkipSeparators(one, i);
      j := SkipSeparators(two, j);
      KindsDecide(one, i, two, j);

      var oneTilde := i < |one| && one[i] == '~';
      var twoTilde := j < |two| && two[j] == '~';
      if oneTilde || twoTilde {
        if !oneTilde { return 1; }
        if !twoTilde { return -1; }
        StepOperator(one, i, two, j);
        i, j := i + 1, j + 1;
        continue;
      }

      var oneCaret := i < |one| && one[i] == '^';
      var twoCaret := j < |two| && two[j] == '^';
      if oneCaret || twoCaret {
        if i >= |one| { return -1; }
        if j >= |two| { return 1; }
        if !oneCaret { return 1; }
        if !twoCaret { return -1; }
        StepOperator(one, i, two, j);
        i, j := i + 1, j + 1;
        continue;
      }

      if i >= |one| || j >= |two| { break; }

      var c;
      c, i, j := CompareSegments(one, i, two, j);
      if c != 0 { return c; }
    }
    if i >= |one| && j >= |two| { return 0; }
    return if i >= |one| then -1 else 1;
  }

  // ── Whole EVRs ───────────────────────────────────────────────────────

  /** An (epoch, version, release) triple; a component that is not stated is `None`. */
  datatype Evr = Evr(epoch: Option<string>, version: Option<string>, release: Option<string>)

  /** `x or ""` */
  function OrEmpty(x: Option<string>): string {
    if x.Some? then x.value else ""
  }

  /** White space `int()` trims, within ASCII. */
  predicate IsIntSpace(c: char) {
    c == ' ' || ('\t' <= c <= '\r') || ('\U{1c}' <= c <= '\U{1f}')
  }

  function TrimInt(s: string): (r: string)
    decreases |s|
  {
    if s != "" && IsIntSpace(s[0]) then TrimInt(s[1..])
    else if s != "" && IsIntSpace(s[|s| - 1]) then TrimInt(s[..|s| - 1])
    else s
  }

  /** Digits with single underscores allowed between them: the body of a Python integer literal. */
  predicate IsIntBody(s: string) {
    && s != "" && IsDigit(s[0])
    && (|s| > 1 ==> IsIntBody(if s[1] == '_' then s[2..] else s[1..]))
  }

  function DropUnderscores(s: string): string {
    if s == "" then "" else (if s[0] == '_' then [] else [s[0]]) + DropUnderscores(s[1..])
  }

  /** `int(epoch)`, with 0 for an absent, empty or unreadable epoch. */
  function EpochInt(epoch: Option<string>): int {
    if epoch.None? || epoch.value == "" || epoch.value == "(none)" then 0
    else
      var t := TrimInt(epoch.value);
      var signed := t != "" && (t[0] == '+' || t[0] == '-');
      var body := if signed then t[1..] else t;
      if !IsIntBody(body) then 0
      else if signed && t[0] == '-' then -(Value(DropUnderscores(body)) as int)
      else Value(DropUnderscores(body))
  }

  function CompareEvr(one: Evr, two: Evr): int {
    var e1, e2 := EpochInt(one.epoch), EpochInt(two.epoch);
    if e1 != e2 then (if e1 > e2 then 1 else -1)
    else
      var v := VersionCompare(OrEmpty(one.version), OrEmpty(two.version));
      if v != 0 then v else VersionCompare(OrEmpty(one.release), OrEmpty(two.release))
  }

  /** What has to agree for two EVRs to tie. */
  ghost predicate SameEvr(a: Evr, b: Evr) {
    && EpochInt(a.epoch) == EpochInt(b.epoch)
    && Tokens(OrEmpty(a.version)) == Tokens(OrEmpty(b.version))
    && Tokens(OrEmpty(a.release)) == Tokens(OrEmpty(b.release))
  }

  /** EVRs inherit the order: a total preorder, ties exactly on equal epoch and equal tokens. */
  lemma EvrTotalPreorder(a: Evr, b: Evr, c: Evr)
    ensures -1 <= CompareEvr(a, b) <= 1
    ensures CompareEvr(a, b) == -CompareEvr(b, a)
    ensures CompareEvr(a, b) == 0 <==> SameEvr(a, b)
    ensures CompareEvr(a, b) <= 0 && CompareEvr(b, c) <= 0 ==> CompareEvr(a, c) <= 0
  {
    var av, bv, cv := OrEmpty(a.version), OrEmpty(b.version), OrEmpty(c.version);
    var ar, br, cr := OrEmpty(a.release), OrEmpty(b.release), OrEmpty(c.release);
    VersionTotalPreorder(av, bv, cv);
    VersionTotalPreorder(ar, br, cr);
    VersionTotalPreorder(bv, cv, av);
    VersionTotalPreorder(cv, av, bv);
  }
}
