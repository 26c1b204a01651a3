/**
 * Finding the operators of an rpm boolean dependency: the depth-aware scanners.
 *
 * Everything here takes the spelling of the operators as a parameter and uses
 * only that the words are lower-case and no two of them are the same.
 */
module BooleanScan {
  import opened Options
  import opened PyText

  datatype BoolOp = Without | Unless | With | Else | And | Or | If

  predicate IsWord(s: string) {
    s != "" && forall k :: 0 <= k < |s| ==> 'a' <= s[k] <= 'z'
  }

  ghost predicate IsSpelling(w: BoolOp -> string) {
    (forall op :: IsWord(w(op))) && forall a, b :: w(a) == w(b) ==> a == b
  }

  /** An operator as it appears between operands: a blank on each side. */
  function Token(w: BoolOp -> string, op: BoolOp): string {
    " " + w(op) + " "
  }

  predicate BeginsWith(w: BoolOp -> string, s: string, op: BoolOp) {
    Token(w, op) <= s
  }

  /** No string begins with two different tokens. */
  lemma TokenUnique(w: BoolOp -> string, s: string, a: BoolOp, b: BoolOp)
    requires IsSpelling(w) && BeginsWith(w, s, a) && BeginsWith(w, s, b)
    ensures a == b
  {
    var x, y := w(a), w(b);
    assert IsWord(x) && IsWord(y);
    assert forall k :: 0 <= k < |x| + 2 ==> s[k] == Token(w, a)[k];
    assert forall k :: 0 <= k < |y| + 2 ==> s[k] == Token(w, b)[k];
    assert s[|x| + 1] == ' ' && s[|y| + 1] == ' ';
    assert |x| == |y|;
    assert forall k :: 0 <= k < |x| ==> x[k] == s[k + 1] == y[k];
    assert x == y;
  }

  /** The operators in the order they are tried, longest first. */
  const BOOL_OPS: seq<BoolOp> := [Without, Unless, With, Else, And, Or, If]

  lemma EveryOp(op: BoolOp)
    ensures op in BOOL_OPS
  {
    var at := match op case Without => 0 case Unless => 1 case With => 2 case Else => 3 case And => 4 case Or => 5 case If => 6;
    assert BOOL_OPS[at] == op;
  }

  /** The first of some operators whose token `s` begins with. */
  function FirstToken(w: BoolOp -> string, s: string, ops: seq<BoolOp>): (r: Option<BoolOp>)
    ensures r.Some? ==> BeginsWith(w, s, r.value)
    ensures r.None? ==> forall op :: op in ops ==> !BeginsWith(w, s, op)
  {
    if ops == [] then None
    else if BeginsWith(w, s, ops[0]) then Some(ops[0])
    else FirstToken(w, s, ops[1..])
  }

  /** The operator token `s` begins with. */
  function TokenAt(w: BoolOp -> string, s: string): (r: Option<BoolOp>)
    ensures r.Some? ==> BeginsWith(w, s, r.value)
    ensures r.None? ==> forall op :: !BeginsWith(w, s, op)
  {
    var r := FirstToken(w, s, BOOL_OPS);
    assert r.None? ==> forall op :: !BeginsWith(w, s, op) by {
      forall op | r.None? ensures !BeginsWith(w, s, op) { EveryOp(op); }
    }
    r
  }

  lemma TokenAtIs(w: BoolOp -> string, s: string, op: BoolOp)
    requires IsSpelling(w)
    ensures BeginsWith(w, s, op) <==> TokenAt(w, s) == Some(op)
  {
    if BeginsWith(w, s, op) { TokenUnique(w, s, op, TokenAt(w, s).value); }
  }

  // ── The scanners, as functions on what is left to read ───────────────

  datatype Cut = Cut(at: nat, op: BoolOp)

  /** Operator tokens at depth zero, `d` being the depth here and `off` the index of `s[0]`. */
  ghost function Scan(w: BoolOp -> string, s: string, d: int, off: nat): seq<Cut>
    decreases |s|
  {
    if s == "" then []
    else if s[0] == '(' then Scan(w, s[1..], d + 1, off + 1)
    else if s[0] == ')' then Scan(w, s[1..], d - 1, off + 1)
    else if d == 0 && TokenAt(w, s).Some? then
      var op := TokenAt(w, s).value;
      [Cut(off, op)] + Scan(w, s[|Token(w, op)|..], d, off + |Token(w, op)|)
    else Scan(w, s[1..], d, off + 1)
  }

  /** Parts of `cur + s` between the tokens of one operator at depth zero. */
  ghost function Split(w: BoolOp -> string, s: string, op: BoolOp, d: int, cur: string): seq<string>
    decreases |s|
  {
    if s == "" then [cur]
    else if s[0] == '(' then Split(w, s[1..], op, d + 1, cur + [s[0]])
    else if s[0] == ')' then Split(w, s[1..], op, d - 1, cur + [s[0]])
    else if d == 0 && BeginsWith(w, s, op) then [cur] + Split(w, s[|Token(w, op)|..], op, d, "")
    else Split(w, s[1..], op, d, cur + [s[0]])
  }

  function StripAll(parts: seq<string>): (r: seq<string>)
    ensures |r| == |parts| && forall i :: 0 <= i < |parts| ==> r[i] == Strip(parts[i])
  {
    seq(|parts|, i requires 0 <= i < |parts| => Strip(parts[i]))
  }

  /** Whether the parenthesis that takes the depth back to zero is the last character. */
  function ClosesLast(s: string, d: int): bool {
    if s == "" then false
    else if s[0] == '(' then ClosesLast(s[1..], d + 1)
    else if s[0] == ')' then (if d == 1 then |s| == 1 else ClosesLast(s[1..], d - 1))
    else ClosesLast(s[1..], d)
  }

  predicate IsSingleGroup(text: string) {
    text != "" && text[0] == '(' && text[|text| - 1] == ')' && ClosesLast(text, 0)
  }

  // ── The scanners, as the loops that compute them ─────────────────────

  method FindToken(w: BoolOp -> string, s: string) returns (r: Option<BoolOp>)
    requires IsSpelling(w)
    ensures r == TokenAt(w, s)
  {
    for i := 0 to |BOOL_OPS|
      invariant forall k :: 0 <= k < i ==> !BeginsWith(w, s, BOOL_OPS[k])
    {
      if Token(w, BOOL_OPS[i]) <= s {
        TokenAtIs(w, s, BOOL_OPS[i]);
        return Some(BOOL_OPS[i]);
      }
    }
    forall op ensures !BeginsWith(w, s, op) { EveryOp(op); }
    return None;
  }

  /** Every operator token at paren depth zero, as (index, op). */
  method TopLevelOps(w: BoolOp -> string, text: string) returns (found: seq<Cut>)
    requires IsSpelling(w)
    ensures found == Scan(w, text, 0, 0)
  {
    found := [];
    var depth, index := 0, 0;
    ghost var rest := text;
    while index < |text|
      invariant 0 <= index <= |text| && rest == text[index..]
      invariant found + Scan(w, rest, depth, index) == Scan(w, text, 0, 0)
    {
      var c := text[index];
      var step := 1;
      if c == '(' {
        depth := depth + 1;
      } else if c == ')' {
        depth := depth - 1;
      } else if depth == 0 && c == ' ' {
        var op := FindToken(w, text[index..]);
        if op.Some? {
          found := found + [Cut(index, op.value)];
          index := index + |Token(w, op.value)| - 1;
          step := |Token(w, op.value)|;
        }
      }
      index := index + 1;
      rest := rest[step..];
    }
  }

  /** What splitting has still to produce at a position of the loop. */
  ghost function SplitFrom(w: BoolOp -> string, text: string, op: BoolOp, d: int, start: nat, index: nat): seq<string>
    requires start <= index <= |text|
  {
    Split(w, text[index..], op, d, text[start..index])
  }

  lemma SplitCut(w: BoolOp -> string, text: string, op: BoolOp, start: nat, index: nat)
    requires start <= index < |text| && BeginsWith(w, text[index..], op)
    ensures var next := index + |Token(w, op)|;
      && next <= |text|
      && SplitFrom(w, text, op, 0, start, index) == [text[start..index]] + SplitFrom(w, text, op, 0, next, next)
  {
    assert text[index..][0] == ' ';
    var next := index + |Token(w, op)|;
    assert text[index..][|Token(w, op)|..] == text[next..] && text[next..next] == "";
  }

  lemma SplitStep(w: BoolOp -> string, text: string, op: BoolOp, d: int, start: nat, index: nat)
    requires start <= index < |text|
    requires d != 0 || !BeginsWith(w, text[index..], op) || text[index] == '(' || text[index] == ')'
    ensures var d' := if text[index] == '(' then d + 1 else if text[index] == ')' then d - 1 else d;
      SplitFrom(w, text, op, d, start, index) == SplitFrom(w, text, op, d', start, index + 1)
  {
    assert text[index..][0] == text[index] && text[index..][1..] == text[index + 1..];
    assert text[start..index] + [text[index]] == text[start..index + 1];
  }

  lemma Reassociate(a: seq<string>, x: string, b: seq<string>)
    ensures a + ([x] + b) == (a + [x]) + b
  {
  }

  /** Split on one operator at depth zero, keeping every operand. */
  method SplitRaw(w: BoolOp -> string, text: string, op: BoolOp) returns (parts: seq<string>)
    ensures parts == Split(w, text, op, 0, "")
  {
    var token := Token(w, op);
    parts := [];
    var depth, start, index := 0, 0, 0;
    assert text[0..] == text && text[0..0] == "";
    while index < |text|
      invariant 0 <= start <= index <= |text|
      invariant parts + SplitFrom(w, text, op, depth, start, index) == Split(w, text, op, 0, "")
    {
      var c := text[index];
      ghost var before := depth;
      if c == '(' {
        depth := depth + 1;
      } else if c == ')' {
        depth := depth - 1;
      } else if depth == 0 && token <= text[index..] {
        SplitCut(w, text, op, start, index);
        Reassociate(parts, text[start..index], SplitFrom(w, text, op, 0, index + |token|, index + |token|));
        parts := parts + [text[start..index]];
        index := index + |token|;
        start := index;
        continue;
      }
      SplitStep(w, text, op, before, start, index);
      index := index + 1;
    }
    assert text[start..] == text[start..index];
    parts := parts + [text[start..]];
  }

  method SplitTopLevel(w: BoolOp -> string, text: string, op: BoolOp) returns (parts: seq<string>)
    ensures parts == StripAll(Split(w, text, op, 0, ""))
  {
    var raw := SplitRaw(w, text, op);
    parts := StripAll(raw);
  }

  method SingleGroup(text: string) returns (r: bool)
    ensures r == IsSingleGroup(text)
  {
    if text == "" || text[0] != '(' || text[|text| - 1] != ')' { return false; }
    var depth := 0;
    assert text[0..] == text;
    for index := 0 to |text|
      invariant ClosesLast(text[index..], depth) == ClosesLast(text, 0)
    {
      assert text[index..][1..] == text[index + 1..];
      if text[index] == '(' {
        depth := depth + 1;
      } else if text[index] == ')' {
        depth := depth - 1;
        if depth == 0 { return index == |text| - 1; }
      }
    }
    return false;
  }
}
