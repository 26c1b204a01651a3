/** What version comparison says about versions as they are written: the rules its documentation lists, and epochs. */
module VersionMeaning {
  import opened Options
  import TextOrder
  import opened PyText
  import opened RpmVersion

  // ── A separator or an operator splits a version in two ───────────────

  function OperatorToken(c: char): seq<Token> {
    if c == '~' then [Tilde] else if c == '^' then [Caret] else []
  }

  lemma SliceShift(a: string, s: string, i: nat, e: nat)
    requires i <= e <= |s|
    ensures (a + s)[|a| + i..|a| + e] == s[i..e]
  {
  }

  /** Reading on from a position is reading what is left. */
  lemma {:induction false} TokensShift(a: string, s: string, i: nat)
    requires i <= |s|
    ensures TokensFrom(a + s, |a| + i) == TokensFrom(s, i)
    decreases |s| - i
  {
    if i < |s| {
      RunShift(a, s, i);
      TokensStep(a + s, |a| + i);
      TokensStep(s, i);
      TokensShift(a, s, NextRun(s, i));
    }
  }

  /** Where the token, or the separator, at a position ends. */
  function NextRun(s: string, i: nat): (e: nat)
    requires i < |s|
    ensures i < e <= |s|
  {
    if IsDigit(s[i]) then DigitEnd(s, i + 1) else if IsAlpha(s[i]) then AlphaEnd(s, i + 1) else i + 1
  }

  /** What it is read as. */
  function RunToken(s: string, i: nat): seq<Token>
    requires i < |s|
  {
    if IsDigit(s[i]) then [Number(Value(s[i..NextRun(s, i)]))]
    else if IsAlpha(s[i]) then [Word(s[i..NextRun(s, i)])]
    else OperatorToken(s[i])
  }

  lemma TokensStep(s: string, i: nat)
    requires i < |s|
    ensures TokensFrom(s, i) == RunToken(s, i) + TokensFrom(s, NextRun(s, i))
  {
  }

  lemma RunShift(a: string, s: string, i: nat)
    requires i < |s|
    ensures NextRun(a + s, |a| + i) == |a| + NextRun(s, i) && RunToken(a + s, |a| + i) == RunToken(s, i)
  {
    assert (a + s)[|a| + i] == s[i];
    if IsDigit(s[i]) { DigitEndShift(a, s, i + 1); }
    if IsAlpha(s[i]) { AlphaEndShift(a, s, i + 1); }
    SliceShift(a, s, i, NextRun(s, i));
  }

  lemma {:induction false} DigitEndShift(a: string, s: string, i: nat)
    requires i <= |s|
    ensures DigitEnd(a + s, |a| + i) == |a| + DigitEnd(s, i)
    decreases |s| - i
  {
    if i < |s| && IsDigit(s[i]) {
      assert (a + s)[|a| + i] == s[i];
      DigitEndShift(a, s, i + 1);
    }
  }

  lemma {:induction false} AlphaEndShift(a: string, s: string, i: nat)
    requires i <= |s|
    ensures AlphaEnd(a + s, |a| + i) == |a| + AlphaEnd(s, i)
    decreases |s| - i
  {
    if i < |s| && IsAlpha(s[i]) {
      assert (a + s)[|a| + i] == s[i];
      AlphaEndShift(a, s, i + 1);
    }
  }

  lemma {:induction false} EndsBefore(a: string, rest: string, i: nat)
    requires i <= |a| && rest != "" && !IsAlnum(rest[0])
    ensures DigitEnd(a + rest, i) == DigitEnd(a, i) && AlphaEnd(a + rest, i) == AlphaEnd(a, i)
    decreases |a| - i
  {
    assert (a + rest)[|a|] == rest[0];
    if i < |a| {
      assert (a + rest)[i] == a[i];
      EndsBefore(a, rest, i + 1);
    }
  }

  /** Cut before a character that is neither digit nor letter, a version is read part by part. */
  lemma {:induction false} TokensBefore(a: string, rest: string, i: nat)
    requires i <= |a| && rest != "" && !IsAlnum(rest[0])
    ensures TokensFrom(a + rest, i) == TokensFrom(a, i) + TokensFrom(a + rest, |a|)
    decreases |a| - i
  {
    var t := a + rest;
    if i < |a| {
      assert t[i] == a[i];
      EndsBefore(a, rest, i);
      if IsDigit(a[i]) {
        var e := DigitEnd(a, i);
        assert t[i..e] == a[i..e];
        TokensBefore(a, rest, e);
      } else if IsAlpha(a[i]) {
        var e := AlphaEnd(a, i);
        assert t[i..e] == a[i..e];
        TokensBefore(a, rest, e);
      } else {
        TokensBefore(a, rest, i + 1);
      }
    }
  }

  lemma TokensJoin(a: string, c: char, b: string)
    requires !IsAlnum(c)
    ensures Tokens(a + [c] + b) == Tokens(a) + OperatorToken(c) + Tokens(b)
  {
    var rest := [c] + b;
    assert a + [c] + b == a + rest;
    TokensBefore(a, rest, 0);
    TokensShift(a, rest, 0);
    TokensShift([c], b, 0);
    assert TokensFrom(rest, 0) == OperatorToken(c) + TokensFrom(rest, 1);
  }

  // ── The rules ────────────────────────────────────────────────────────

  predicate Separator(c: char) {
    !IsAlnum(c) && c != '~' && c != '^'
  }

  /** What two versions begin with alike does not matter. */
  lemma {:induction false} CompareAppended(ts: seq<Token>, xs: seq<Token>, ys: seq<Token>)
    ensures CompareTokens(ts + xs, ts + ys) == CompareTokens(xs, ys)
  {
    if ts == [] {
      assert ts + xs == xs && ts + ys == ys;
    } else {
      assert (ts + xs)[0] == ts[0] == (ts + ys)[0] && (ts + xs)[1..] == ts[1..] + xs && (ts + ys)[1..] == ts[1..] + ys;
      CompareAppended(ts[1..], xs, ys);
    }
  }

  lemma CompareJoined(a: string, c: char, x: string, d: char, y: string)
    requires !IsAlnum(c) && !IsAlnum(d)
    ensures VersionCompare(a + [c] + x, a + [d] + y)
         == CompareTokens(OperatorToken(c) + Tokens(x), OperatorToken(d) + Tokens(y))
    ensures VersionCompare(a + [c] + x, a) == CompareTokens(OperatorToken(c) + Tokens(x), [])
  {
    TokensJoined(a, c, x);
    TokensJoined(a, d, y);
    assert Tokens(a) == Tokens(a) + [];
    CompareAppended(Tokens(a), OperatorToken(c) + Tokens(x), OperatorToken(d) + Tokens(y));
    CompareAppended(Tokens(a), OperatorToken(c) + Tokens(x), []);
  }

  lemma TokensJoined(a: string, c: char, x: string)
    requires !IsAlnum(c)
    ensures Tokens(a + [c] + x) == Tokens(a) + (OperatorToken(c) + Tokens(x))
  {
    TokensJoin(a, c, x);
  }

  /** Separators carry no weight: any of them, and any number, separate alike. */
  lemma SeparatorsWeighNothing(a: string, c: char, d: char, b: string)
    requires Separator(c) && Separator(d)
    ensures VersionCompare(a + [c] + b, a + [d] + b) == 0
    ensures VersionCompare(a + [c] + ([d] + b), a + [c] + b) == 0
    ensures VersionCompare(a + [c], a) == 0
  {
    CompareJoined(a, c, b, d, b);
    CompareJoined(a, c, [d] + b, c, b);
    CompareJoined(a, c, "", c, "");
    TokensShift([d], b, 0);
    assert a + [c] + "" == a + [c];
    assert Tokens([d] + b) == TokensFrom([d] + b, 1);
    CompareTokensZero([] + Tokens(b), [] + Tokens(b));
    CompareTokensZero([] + Tokens([d] + b), [] + Tokens(b));
  }

  /** A tilde is older than anything, the end of the version included. */
  lemma TildeIsOldest(a: string, b: string, c: string)
    requires c != "" && IsAlnum(c[0])
    ensures VersionCompare(a + ['~'] + b, a) == -1
    ensures VersionCompare(a + ['~'] + b, a + ['.'] + c) == -1
    ensures VersionCompare(a + ['~'] + b, a + ['^'] + c) == -1
  {
    CompareJoined(a, '~', b, '.', c);
    CompareJoined(a, '~', b, '^', c);
    RankOfFirst(c);
    assert [] + Tokens(c) == Tokens(c);
  }

  /** A caret is newer than the end of the version, and older than another segment. */
  lemma CaretIsBetween(a: string, b: string, c: string)
    requires c != "" && IsAlnum(c[0])
    ensures VersionCompare(a + ['^'] + b, a) == 1
    ensures VersionCompare(a + ['^'] + b, a + ['.'] + c) == -1
    ensures VersionCompare(a + ['.'] + c, a) == 1
  {
    CompareJoined(a, '^', b, '.', c);
    CompareJoined(a, '.', c, '.', c);
    RankOfFirst(c);
    assert [] + Tokens(c) == Tokens(c);
  }

  /** What a version that begins with a digit or a letter is read as first. */
  lemma RankOfFirst(c: string)
    requires c != "" && IsAlnum(c[0])
    ensures Rank(Tokens(c)) == if IsDigit(c[0]) then 4 else 3
  {
  }

  /** A run of digits is newer than a run of letters. */
  lemma DigitsBeatLetters(a: string, d: string, l: string)
    requires d != "" && IsDigit(d[0]) && l != "" && IsAlpha(l[0])
    ensures VersionCompare(a + ['.'] + d, a + ['.'] + l) == 1
  {
    CompareJoined(a, '.', d, '.', l);
    RankOfFirst(d);
    RankOfFirst(l);
    assert [] + Tokens(d) == Tokens(d) && [] + Tokens(l) == Tokens(l);
  }

  predicate AllLetters(s: string) {
    forall k :: 0 <= k < |s| ==> IsAlpha(s[k])
  }

  lemma RunOfDigits(d: string)
    requires d != "" && AllDigits(d)
    ensures Tokens(d) == [Number(Value(d))]
  {
    assert d[0..DigitEnd(d, 0)] == d && TokensFrom(d, |d|) == [];
  }

  lemma RunOfLetters(l: string)
    requires l != "" && AllLetters(l)
    ensures Tokens(l) == [Word(l)]
  {
    assert l[0..AlphaEnd(l, 0)] == l && TokensFrom(l, |l|) == [];
  }

  /** Runs of digits compare as the numbers they denote, however many zeros lead. */
  lemma NumbersByValue(a: string, d: string, e: string)
    requires d != "" && AllDigits(d) && e != "" && AllDigits(e)
    ensures VersionCompare(a + ['.'] + d, a + ['.'] + e)
         == if Value(d) > Value(e) then 1 else if Value(d) < Value(e) then -1 else 0
  {
    CompareJoined(a, '.', d, '.', e);
    RunOfDigits(d);
    RunOfDigits(e);
    assert [] + Tokens(d) == Tokens(d) && [] + Tokens(e) == Tokens(e);
  }

  /** Runs of letters compare as text. */
  lemma WordsByText(a: string, l: string, m: string)
    requires l != "" && AllLetters(l) && m != "" && AllLetters(m)
    ensures VersionCompare(a + ['.'] + l, a + ['.'] + m) == if l == m then 0 else if TextOrder.Less(l, m) then -1 else 1
  {
    CompareJoined(a, '.', l, '.', m);
    RunOfLetters(l);
    RunOfLetters(m);
    assert [] + Tokens(l) == Tokens(l) && [] + Tokens(m) == Tokens(m);
    TextOrder.LessTotal(l, m);
    TextOrder.LessIrreflexive(l);
    if TextOrder.Less(l, m) && TextOrder.Less(m, l) { TextOrder.LessTransitive(l, m, l); }
  }

  // ── Epochs ───────────────────────────────────────────────────────────

  ghost predicate Blanks(s: string) {
    forall k :: 0 <= k < |s| ==> IsIntSpace(s[k])
  }

  /** Runs of digits, as underscores separate them. */
  ghost predicate Groups(gs: seq<string>) {
    gs != [] && forall k :: 0 <= k < |gs| ==> gs[k] != "" && AllDigits(gs[k])
  }

  function Joined(gs: seq<string>): string {
    if gs == [] then "" else gs[0] + Joined(gs[1..])
  }

  /** `int` reads the text as this number: blanks, a sign, digits with single underscores between, blanks. */
  ghost predicate ReadsAs(s: string, v: int) {
    exists pre, sign, gs, post :: IsLiteral(s, pre, sign, gs, post) && v == Signed(sign, Value(Joined(gs)))
  }

  ghost predicate IsLiteral(s: string, pre: string, sign: string, gs: seq<string>, post: string) {
    && Blanks(pre) && Blanks(post) && (sign == "" || sign == "+" || sign == "-") && Groups(gs)
    && s == pre + (sign + Join(gs, "_")) + post
  }

  function Signed(sign: string, n: nat): int {
    if sign == "-" then -(n as int) else n
  }

  lemma {:induction false} TrimBetween(pre: string, t: string, post: string)
    requires Blanks(pre) && Blanks(post) && t != "" && !IsIntSpace(t[0]) && !IsIntSpace(t[|t| - 1])
    ensures TrimInt(pre + t + post) == t
    decreases |pre| + |post|
  {
    var s := pre + t + post;
    if pre != "" {
      assert s[0] == pre[0] && s[1..] == pre[1..] + t + post;
      TrimBetween(pre[1..], t, post);
    } else if post != "" {
      var n := |post| - 1;
      assert s[0] == t[0] && s[|s| - 1] == post[n] && s[..|s| - 1] == pre + t + post[..n];
      TrimBetween(pre, t, post[..n]);
    } else {
      assert s == t;
    }
  }

  lemma {:induction false} TrimIs(s: string) returns (pre: string, post: string)
    ensures Blanks(pre) && Blanks(post) && s == pre + TrimInt(s) + post
    decreases |s|
  {
    pre, post := "", "";
    if s != "" && IsIntSpace(s[0]) {
      pre, post := TrimIs(s[1..]);
      pre := [s[0]] + pre;
    } else if s != "" && IsIntSpace(s[|s| - 1]) {
      var n := |s| - 1;
      assert s == s[..n] + [s[n]];
      pre, post := TrimIs(s[..n]);
      post := post + [s[n]];
    }
  }

  lemma DigitBefore(c: char, s: string)
    requires IsDigit(c) && (s == "" || IsIntBody(s) || (s[0] == '_' && IsIntBody(s[1..])))
    ensures IsIntBody([c] + s) && DropUnderscores([c] + s) == [c] + DropUnderscores(s)
  {
    var t := [c] + s;
    assert t[0] == c && t[1..] == s;
    if s != "" { assert t[1] == s[0] && t[2..] == s[1..]; }
  }

  lemma {:induction false} BodyOfRun(g: string, rest: string)
    requires g != "" && AllDigits(g) && (rest == "" || (rest[0] == '_' && IsIntBody(rest[1..])))
    ensures IsIntBody(g + rest) && DropUnderscores(g + rest) == g + DropUnderscores(rest)
  {
    if |g| > 1 {
      var tail := g[1..];
      BodyOfRun(tail, rest);
      DigitBefore(g[0], tail + rest);
      AppendFirst(g, rest);
      AppendFirst(g, DropUnderscores(rest));
    } else {
      assert g == [g[0]];
      DigitBefore(g[0], rest);
    }
  }

  lemma AppendFirst(g: string, rest: string)
    requires g != ""
    ensures g + rest == [g[0]] + (g[1..] + rest)
  {
  }

  lemma {:induction false} BodyOfGroups(gs: seq<string>)
    requires Groups(gs)
    ensures IsIntBody(Join(gs, "_")) && DropUnderscores(Join(gs, "_")) == Joined(gs)
  {
    if |gs| == 1 {
      BodyOfRun(gs[0], "");
      assert gs[0] + "" == gs[0];
      assert Joined(gs) == gs[0] + Joined(gs[1..]);
    } else {
      assert Groups(gs[1..]);
      BodyOfGroups(gs[1..]);
      GroupBefore(gs[0], Join(gs[1..], "_"));
    }
  }

  lemma GroupBefore(g: string, rest: string)
    requires g != "" && AllDigits(g) && IsIntBody(rest)
    ensures IsIntBody(g + "_" + rest) && DropUnderscores(g + "_" + rest) == g + DropUnderscores(rest)
  {
    var more := "_" + rest;
    assert more[0] == '_' && more[1..] == rest && g + "_" + rest == g + more;
    BodyOfRun(g, more);
  }

  lemma {:induction false} GroupsOfBody(s: string) returns (gs: seq<string>)
    requires IsIntBody(s)
    ensures Groups(gs) && Join(gs, "_") == s
    decreases |s|
  {
    if |s| == 1 {
      gs := [s];
    } else if s[1] == '_' {
      var more := GroupsOfBody(s[2..]);
      gs := [s[..1]] + more;
      assert gs[1..] == more && s == s[..1] + "_" + s[2..];
    } else {
      var more := GroupsOfBody(s[1..]);
      gs := [[s[0]] + more[0]] + more[1..];
      assert s == [s[0]] + s[1..];
      if |more| > 1 {
        assert gs[1..] == more[1..];
        assert Join(more, "_") == more[0] + "_" + Join(more[1..], "_");
      }
    }
  }

  // ── What `int` makes of an epoch ─────────────────────────────────────

  lemma LiteralEpoch(s: string, pre: string, sign: string, gs: seq<string>, post: string)
    requires IsLiteral(s, pre, sign, gs, post)
    ensures EpochInt(Some(s)) == Signed(sign, Value(Joined(gs)))
  {
    var body := Join(gs, "_");
    var t := sign + body;
    BodyOfGroups(gs);
    BodyEnds(body);
    assert t[|t| - 1] == body[|body| - 1] && (sign == "" ==> t == body) && (sign != "" ==> t[0] == sign[0] && t[1..] == body);
    TrimBetween(pre, t, post);
    assert s != "(none)" by {
      LiteralIsNoWord(s, pre, t, post);
    }
  }

  lemma {:induction false} BodyEnds(s: string)
    requires IsIntBody(s)
    ensures IsDigit(s[|s| - 1])
    decreases |s|
  {
    if |s| > 1 { BodyEnds(if s[1] == '_' then s[2..] else s[1..]); }
  }

  lemma LiteralIsNoWord(s: string, pre: string, t: string, post: string)
    requires s == pre + t + post && Blanks(pre) && t != "" && t[0] != '('
    ensures s != "(none)"
  {
    if pre == "" { assert s[0] == t[0]; } else { assert s[0] == pre[0]; }
  }

  /** An epoch that states an integer counts as it; any other, and none, as 0. */
  lemma EpochIsInt(s: string)
    ensures forall v :: ReadsAs(s, v) ==> EpochInt(Some(s)) == v
    ensures (forall v :: !ReadsAs(s, v)) ==> EpochInt(Some(s)) == 0
    ensures EpochInt(None) == 0
  {
    forall v | ReadsAs(s, v) ensures EpochInt(Some(s)) == v {
      var pre, sign, gs, post :| IsLiteral(s, pre, sign, gs, post) && v == Signed(sign, Value(Joined(gs)));
      LiteralEpoch(s, pre, sign, gs, post);
    }
    if EpochInt(Some(s)) != 0 { EpochIsLiteral(s); }
  }

  lemma EpochIsLiteral(s: string)
    requires EpochInt(Some(s)) != 0
    ensures exists v :: ReadsAs(s, v)
  {
    var pre, post := TrimIs(s);
    var t := TrimInt(s);
    var sign := if t != "" && (t[0] == '+' || t[0] == '-') then t[..1] else "";
    var body := t[|sign|..];
    assert t == sign + body;
    var gs := GroupsOfBody(body);
    assert IsLiteral(s, pre, sign, gs, post);
    assert ReadsAs(s, Signed(sign, Value(Joined(gs))));
  }

  /** In particular, digits count as what they denote, and minus that after a minus. */
  lemma DigitEpoch(d: string)
    requires d != "" && AllDigits(d)
    ensures EpochInt(Some(d)) == Value(d) && EpochInt(Some("-" + d)) == -(Value(d) as int)
  {
    assert Joined([d]) == d + Joined([]) && Joined([]) == "" && d + "" == d;
    assert "" + ("" + d) + "" == d && "" + ("-" + d) + "" == "-" + d;
    LiteralEpoch(d, "", "", [d], "");
    LiteralEpoch("-" + d, "", "-", [d], "");
  }

  // ── Whole versions ───────────────────────────────────────────────────

  /** The integer an epoch states; 0 for none and for text that states none. */
  ghost predicate EpochStates(epoch: Option<string>, n: int) {
    if epoch.None? then n == 0
    else ReadsAs(epoch.value, n) || (n == 0 && forall v :: !ReadsAs(epoch.value, v))
  }

  lemma EpochCounts(epoch: Option<string>, n: int)
    requires EpochStates(epoch, n)
    ensures EpochInt(epoch) == n
  {
    if epoch.Some? { EpochIsInt(epoch.value); }
  }

  /** The epoch decides first and as a number, then the version, then the release. */
  lemma EvrIsLexicographic(a: Evr, b: Evr, m: int, n: int)
    requires EpochStates(a.epoch, m) && EpochStates(b.epoch, n)
    ensures m > n ==> CompareEvr(a, b) == 1
    ensures m < n ==> CompareEvr(a, b) == -1
    ensures m == n && VersionCompare(OrEmpty(a.version), OrEmpty(b.version)) != 0 ==>
      CompareEvr(a, b) == VersionCompare(OrEmpty(a.version), OrEmpty(b.version))
    ensures m == n && VersionCompare(OrEmpty(a.version), OrEmpty(b.version)) == 0 ==>
      CompareEvr(a, b) == VersionCompare(OrEmpty(a.release), OrEmpty(b.release))
  {
    EpochCounts(a.epoch, m);
    EpochCounts(b.epoch, n);
  }

  /** With epochs of digits: the larger number wins whatever version and release are. */
  lemma DigitEpochsDecide(a: Evr, b: Evr, d: string, e: string)
    requires a.epoch == Some(d) && d != "" && AllDigits(d) && b.epoch == Some(e) && e != "" && AllDigits(e)
    ensures Value(d) > Value(e) ==> CompareEvr(a, b) == 1 && CompareEvr(b, a) == -1
    ensures Value(d) == Value(e) ==>
      CompareEvr(a, b) == var v := VersionCompare(OrEmpty(a.version), OrEmpty(b.version));
        if v != 0 then v else VersionCompare(OrEmpty(a.release), OrEmpty(b.release))
  {
    DigitsRead(d);
    DigitsRead(e);
    EvrIsLexicographic(a, b, Value(d), Value(e));
    EvrIsLexicographic(b, a, Value(e), Value(d));
  }

  lemma DigitsRead(d: string)
    requires d != "" && AllDigits(d)
    ensures ReadsAs(d, Value(d))
  {
    assert Joined([d]) == d + Joined([]) && Joined([]) == "" && d + "" == d;
    assert "" + ("" + d) + "" == d;
    assert IsLiteral(d, "", "", [d], "");
  }

  /** No epoch is the epoch 0. */
  lemma NoEpochIsZero(a: Evr, b: Evr)
    requires (a.epoch.None? || a.epoch.value == "" || a.epoch.value == "(none)") && b.epoch == Some("0")
    requires a.version == b.version && a.release == b.release
    ensures CompareEvr(a, b) == 0
  {
    DigitEpoch("0");
    assert ValueFrom("0", 0) == ValueFrom("0"[1..], 0);
    VersionTotalPreorder(OrEmpty(a.version), OrEmpty(b.version), "");
    VersionTotalPreorder(OrEmpty(a.release), OrEmpty(b.release), "");
  }
}
