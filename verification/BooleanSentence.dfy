/**
 * What the scanners see: a body is operands glued together by operators, and
 * the cuts they make recover exactly the operands that hide no operator.
 */
module BooleanSentence {
  import opened BooleanScan

  /** Operands and the operators between them; always one more operand than operators. */
  datatype Sentence = Sentence(parts: seq<string>, ops: seq<BoolOp>)

  /** Cut `cur + s` at every depth-zero operator, `cur` being what is read of the current operand. */
  function Read(w: BoolOp -> string, s: string, d: int, cur: string): (r: Sentence)
    ensures |r.parts| == |r.ops| + 1
    decreases |s|
  {
    if s == "" then Sentence([cur], [])
    else if s[0] == '(' then Read(w, s[1..], d + 1, cur + [s[0]])
    else if s[0] == ')' then Read(w, s[1..], d - 1, cur + [s[0]])
    else if d == 0 && TokenAt(w, s).Some? then
      var op := TokenAt(w, s).value;
      var rest := Read(w, s[|Token(w, op)|..], d, "");
      Sentence([cur] + rest.parts, [op] + rest.ops)
    else Read(w, s[1..], d, cur + [s[0]])
  }

  /** Operands put back together. */
  ghost function Glue(w: BoolOp -> string, parts: seq<string>, ops: seq<BoolOp>): string
    requires |parts| == |ops| + 1
  {
    if ops == [] then parts[0] else parts[0] + Token(w, ops[0]) + Glue(w, parts[1..], ops[1..])
  }

  // ── Reading loses nothing, and the other scanners agree with it ──────

  lemma {:induction false} ReadLossless(w: BoolOp -> string, s: string, d: int, cur: string)
    ensures var r := Read(w, s, d, cur); Glue(w, r.parts, r.ops) == cur + s
    decreases |s|
  {
    if s != "" {
      if s[0] != '(' && s[0] != ')' && d == 0 && TokenAt(w, s).Some? {
        var op := TokenAt(w, s).value;
        var rest := Read(w, s[|Token(w, op)|..], d, "");
        ReadLossless(w, s[|Token(w, op)|..], d, "");
        assert ([cur] + rest.parts)[1..] == rest.parts && ([op] + rest.ops)[1..] == rest.ops;
        assert s == Token(w, op) + s[|Token(w, op)|..];
      } else {
        var d' := if s[0] == '(' then d + 1 else if s[0] == ')' then d - 1 else d;
        ReadLossless(w, s[1..], d', cur + [s[0]]);
        assert cur + s == cur + [s[0]] + s[1..];
      }
    }
  }

  /** `_top_level_ops` reports the operators of the sentence, each exactly where the operand before it ends. */
  ghost predicate CutsOf(w: BoolOp -> string, r: Sentence, start: int, cuts: seq<Cut>)
    requires |r.parts| == |r.ops| + 1
  {
    && |cuts| == |r.ops|
    && (forall i :: 0 <= i < |cuts| ==> cuts[i].op == r.ops[i])
    && (cuts != [] ==> cuts[0].at == start + |r.parts[0]|)
    && (forall i :: 0 < i < |cuts| ==> cuts[i].at == cuts[i - 1].at + |Token(w, cuts[i - 1].op)| + |r.parts[i]|)
  }

  lemma CutsExtend(w: BoolOp -> string, p: string, op: BoolOp, r: Sentence, start: nat, cuts: seq<Cut>)
    requires |r.parts| == |r.ops| + 1 && CutsOf(w, r, start + |p| + |Token(w, op)|, cuts)
    ensures CutsOf(w, Sentence([p] + r.parts, [op] + r.ops), start, [Cut(start + |p|, op)] + cuts)
  {
  }

  lemma {:induction false} ScanIsRead(w: BoolOp -> string, s: string, d: int, cur: string, start: nat)
    ensures CutsOf(w, Read(w, s, d, cur), start, Scan(w, s, d, start + |cur|))
    decreases |s|
  {
    if s != "" {
      if s[0] != '(' && s[0] != ')' && d == 0 && TokenAt(w, s).Some? {
        var op := TokenAt(w, s).value;
        var n := |Token(w, op)|;
        ScanIsRead(w, s[n..], d, "", start + |cur| + n);
        CutsExtend(w, cur, op, Read(w, s[n..], d, ""), start, Scan(w, s[n..], d, start + |cur| + n));
      } else {
        ScanIsRead(w, s[1..], if s[0] == '(' then d + 1 else if s[0] == ')' then d - 1 else d, cur + [s[0]], start);
      }
    }
  }

  /** `_split_top` makes the same cuts, whenever its operator is the only one there is. */
  lemma {:induction false} SplitIsRead(w: BoolOp -> string, s: string, op: BoolOp, d: int, cur: string)
    requires IsSpelling(w)
    requires forall o :: o in Read(w, s, d, cur).ops ==> o == op
    ensures Split(w, s, op, d, cur) == Read(w, s, d, cur).parts
    decreases |s|
  {
    if s != "" {
      TokenAtIs(w, s, op);
      if s[0] != '(' && s[0] != ')' && d == 0 && TokenAt(w, s).Some? {
        var o := TokenAt(w, s).value;
        assert o in Read(w, s, d, cur).ops;
        var rest := Read(w, s[|Token(w, op)|..], d, "");
        assert forall o' :: o' in rest.ops ==> o' in Read(w, s, d, cur).ops;
        SplitIsRead(w, s[|Token(w, op)|..], op, d, "");
      } else {
        var d' := if s[0] == '(' then d + 1 else if s[0] == ')' then d - 1 else d;
        assert Read(w, s, d, cur) == Read(w, s[1..], d', cur + [s[0]]);
        SplitIsRead(w, s[1..], op, d', cur + [s[0]]);
      }
    }
  }

  // ── Operands that hide no operator ───────────────────────────────────

  /** No operator token at depth zero, reading from depth `d`. */
  ghost predicate Silent(w: BoolOp -> string, s: string, d: int) {
    s == "" ||
    if s[0] == '(' then Silent(w, s[1..], d + 1)
    else if s[0] == ')' then Silent(w, s[1..], d - 1)
    else (d == 0 ==> TokenAt(w, s).None?) && Silent(w, s[1..], d)
  }

  /** Parentheses match, `d` of them being open at the start. */
  predicate Balanced(s: string, d: nat) {
    if s == "" then d == 0
    else if s[0] == '(' then Balanced(s[1..], d + 1)
    else if s[0] == ')' then d > 0 && Balanced(s[1..], d - 1)
    else Balanced(s[1..], d)
  }

  lemma {:induction false} BalancedConcat(a: string, d: nat, b: string, e: nat)
    requires Balanced(a, d) && Balanced(b, e)
    ensures Balanced(a + b, d + e)
  {
    if a == "" {
      assert a + b == b;
    } else {
      assert (a + b)[1..] == a[1..] + b;
      BalancedConcat(a[1..], if a[0] == '(' then d + 1 else if a[0] == ')' then d - 1 else d, b, e);
    }
  }

  lemma {:induction false} ReadSilent(w: BoolOp -> string, s: string, d: int, cur: string)
    requires Silent(w, s, d)
    ensures Read(w, s, d, cur) == Sentence([cur + s], [])
  {
    if s == "" {
      assert cur + s == cur;
    } else {
      assert cur + s == (cur + [s[0]]) + s[1..];
      ReadSilent(w, s[1..], if s[0] == '(' then d + 1 else if s[0] == ')' then d - 1 else d, cur + [s[0]]);
    }
  }

  /** A token that begins `t + r` begins `t + " "`, when `r` is empty or begins with a blank. */
  lemma TokenIsLocal(w: BoolOp -> string, t: string, r: string)
    requires IsSpelling(w) && t != "" && (r == "" || r[0] == ' ')
    requires TokenAt(w, t + " ").None?
    ensures TokenAt(w, t + r).None?
  {
    if TokenAt(w, t + r).Some? {
      var op := TokenAt(w, t + r).value;
      var tok := Token(w, op);
      assert IsWord(w(op));
      assert forall k :: 0 <= k < |tok| ==> tok[k] == (t + r)[k];
      assert forall k :: 0 < k < |tok| - 1 ==> tok[k] == w(op)[k - 1];
      assert |tok| > |t| ==> tok[|t|] == ' ';
      assert |tok| <= |t| + 1;
      assert tok <= t + " ";
      assert BeginsWith(w, t + " ", op);
    }
  }

  /** An operand that hides no operator, even one that borrows the blank after it, is read whole. */
  lemma {:induction false} ReadOperand(w: BoolOp -> string, t: string, r: string, d: nat, cur: string)
    requires IsSpelling(w) && (r == "" || r[0] == ' ')
    requires Balanced(t, d) && Silent(w, t + " ", d)
    ensures Read(w, t + r, d, cur) == Read(w, r, 0, cur + t)
  {
    if t == "" {
      assert t + r == r && cur + t == cur;
    } else {
      assert (t + r)[1..] == t[1..] + r && (t + " ")[1..] == t[1..] + " ";
      assert cur + t == (cur + [t[0]]) + t[1..];
      if d == 0 && t[0] != '(' && t[0] != ')' { TokenIsLocal(w, t, r); }
      ReadOperand(w, t[1..], r, if t[0] == '(' then d + 1 else if t[0] == ')' then d - 1 else d, cur + [t[0]]);
    }
  }

  lemma ReadOperator(w: BoolOp -> string, op: BoolOp, r: string, cur: string)
    requires IsSpelling(w)
    ensures var rest := Read(w, r, 0, "");
      Read(w, Token(w, op) + r, 0, cur) == Sentence([cur] + rest.parts, [op] + rest.ops)
  {
    var s := Token(w, op) + r;
    assert BeginsWith(w, s, op);
    TokenAtIs(w, s, op);
    assert s[0] == ' ' && s[|Token(w, op)|..] == r;
  }

  /** Operands of a sentence that reading can recover: every one but the last also silent before a blank. */
  ghost predicate Recoverable(w: BoolOp -> string, parts: seq<string>) {
    forall i :: 0 <= i < |parts| ==> Silent(w, if i < |parts| - 1 then parts[i] + " " else parts[i], 0)
  }

  ghost predicate AllBalanced(parts: seq<string>) {
    forall i :: 0 <= i < |parts| ==> Balanced(parts[i], 0)
  }

  /** The first operand and the operator after it are read back. */
  lemma ReadFirst(w: BoolOp -> string, first: string, op: BoolOp, tail: string)
    requires IsSpelling(w) && Balanced(first, 0) && Silent(w, first + " ", 0)
    ensures var rest := Read(w, tail, 0, "");
      Read(w, first + (Token(w, op) + tail), 0, "") == Sentence([first] + rest.parts, [op] + rest.ops)
  {
    assert (Token(w, op) + tail)[0] == ' ';
    ReadOperand(w, first, Token(w, op) + tail, 0, "");
    assert "" + first == first;
    ReadOperator(w, op, tail, first);
  }

  lemma FirstAndRest(w: BoolOp -> string, parts: seq<string>)
    requires parts != [] && AllBalanced(parts) && Recoverable(w, parts)
    ensures Balanced(parts[0], 0) && Silent(w, if |parts| > 1 then parts[0] + " " else parts[0], 0)
    ensures AllBalanced(parts[1..]) && Recoverable(w, parts[1..])
  {
    assert forall i :: 0 <= i < |parts[1..]| ==> parts[1..][i] == parts[i + 1];
  }

  /** Reading undoes gluing. */
  lemma {:induction false} ReadGlue(w: BoolOp -> string, parts: seq<string>, ops: seq<BoolOp>)
    requires IsSpelling(w) && |parts| == |ops| + 1
    requires AllBalanced(parts) && Recoverable(w, parts)
    ensures Read(w, Glue(w, parts, ops), 0, "") == Sentence(parts, ops)
    decreases |ops|
  {
    FirstAndRest(w, parts);
    if ops == [] {
      ReadSilent(w, parts[0], 0, "");
      assert "" + parts[0] == parts[0] && parts == [parts[0]];
    } else {
      var first, rest, op, more := parts[0], parts[1..], ops[0], ops[1..];
      ReadGlue(w, rest, more);
      GlueFirst(w, parts, ops);
      ReadFirst(w, first, op, Glue(w, rest, more));
      assert parts == [first] + rest && ops == [op] + more;
    }
  }

  lemma GlueFirst(w: BoolOp -> string, parts: seq<string>, ops: seq<BoolOp>)
    requires |parts| == |ops| + 1 && ops != []
    ensures Glue(w, parts, ops) == parts[0] + (Token(w, ops[0]) + Glue(w, parts[1..], ops[1..]))
  {
  }

  /** Of what is read, no operand hides an operator. */
  ghost predicate Recovered(w: BoolOp -> string, s: string, d: int, cur: string) {
    var r := Read(w, s, d, cur);
    && |cur| <= |r.parts[0]| && r.parts[0][..|cur|] == cur
    && Silent(w, r.parts[0][|cur|..] + (if r.ops == [] then "" else " "), d)
    && Recoverable(w, r.parts[1..])
  }

  predicate AtOperator(w: BoolOp -> string, s: string, d: int) {
    s != "" && s[0] != '(' && s[0] != ')' && d == 0 && TokenAt(w, s).Some?
  }

  lemma RecoveredAtOperator(w: BoolOp -> string, s: string, cur: string)
    requires AtOperator(w, s, 0) && Recovered(w, s[|Token(w, TokenAt(w, s).value)|..], 0, "")
    ensures Recovered(w, s, 0, cur)
  {
    var r := Read(w, s, 0, cur);
    var rest := Read(w, s[|Token(w, TokenAt(w, s).value)|..], 0, "");
    assert r.parts[1..] == rest.parts;
    assert rest.parts[0][0..] == rest.parts[0];
    assert forall i :: 0 < i < |rest.parts| ==> rest.parts[i] == rest.parts[1..][i - 1];
    assert rest.ops == [] ==> rest.parts[0] + "" == rest.parts[0];
    assert r.parts[0][|cur|..] + " " == " ";
    SilentBlank(w);
  }

  lemma RecoveredInside(w: BoolOp -> string, s: string, d: int, cur: string, d': int)
    requires s != "" && !AtOperator(w, s, d) && d' == if s[0] == '(' then d + 1 else if s[0] == ')' then d - 1 else d
    requires Recovered(w, s[1..], d', cur + [s[0]])
    ensures Recovered(w, s, d, cur)
  {
    var r := Read(w, s, d, cur);
    var cur' := cur + [s[0]];
    ReadPrefix(w, s, d, cur);
    var end := if r.ops == [] then "" else " ";
    var x := r.parts[0][|cur|..] + end;
    assert r.parts[0][..|cur|] == r.parts[0][..|cur'|][..|cur|] == cur;
    assert x[1..] == r.parts[0][|cur'|..] + end && x[0] == s[0];
    if TokenAt(w, x).Some? { assert BeginsWith(w, s, TokenAt(w, x).value); }
  }

  /** What is read as one operand hides no operator. */
  lemma {:induction false} ReadRecoverable(w: BoolOp -> string, s: string, d: int, cur: string)
    ensures Recovered(w, s, d, cur)
    decreases |s|
  {
    if AtOperator(w, s, d) {
      ReadRecoverable(w, s[|Token(w, TokenAt(w, s).value)|..], d, "");
      RecoveredAtOperator(w, s, cur);
    } else if s != "" {
      var d' := if s[0] == '(' then d + 1 else if s[0] == ')' then d - 1 else d;
      ReadRecoverable(w, s[1..], d', cur + [s[0]]);
      RecoveredInside(w, s, d, cur, d');
    }
  }

  lemma SilentBlank(w: BoolOp -> string)
    ensures Silent(w, " ", 0)
  {
    assert TokenAt(w, " ").Some? ==> BeginsWith(w, " ", TokenAt(w, " ").value);
  }

  /** What is read of the first operand, and the blank of the operator after it, begin the text. */
  lemma ReadPrefix(w: BoolOp -> string, s: string, d: int, cur: string)
    ensures var r := Read(w, s, d, cur);
      |cur| <= |r.parts[0]| && r.parts[0][|cur|..] + (if r.ops == [] then "" else " ") <= s
  {
    var r := Read(w, s, d, cur);
    ReadLossless(w, s, d, cur);
    ReadKeepsStart(w, s, d, cur);
    var g := r.parts[0] + (if r.ops == [] then "" else " ");
    assert g <= cur + s;
    assert g[|cur|..] <= (cur + s)[|cur|..];
  }

  lemma {:induction false} ReadKeepsStart(w: BoolOp -> string, s: string, d: int, cur: string)
    ensures |cur| <= |Read(w, s, d, cur).parts[0]|
    decreases |s|
  {
    if s != "" && !(s[0] != '(' && s[0] != ')' && d == 0 && TokenAt(w, s).Some?) {
      ReadKeepsStart(w, s[1..], if s[0] == '(' then d + 1 else if s[0] == ')' then d - 1 else d, cur + [s[0]]);
    }
  }

  // ── Parentheses ──────────────────────────────────────────────────────

  function Group(body: string): string {
    "(" + body + ")"
  }

  lemma {:induction false} ClosesLastIsBalanced(b: string, d: nat)
    requires d >= 1
    ensures ClosesLast(b + ")", d) <==> Balanced(b, d - 1)
  {
    if b == "" {
      assert (b + ")")[1..] == "";
    } else {
      assert (b + ")")[1..] == b[1..] + ")";
      if b[0] == '(' {
        ClosesLastIsBalanced(b[1..], d + 1);
      } else if b[0] == ')' {
        if d > 1 { ClosesLastIsBalanced(b[1..], d - 1); }
      } else {
        ClosesLastIsBalanced(b[1..], d);
      }
    }
  }

  /** Text in parentheses is one group exactly when what is inside is balanced. */
  lemma GroupIsSingle(b: string)
    ensures IsSingleGroup(Group(b)) <==> Balanced(b, 0)
    ensures Balanced(b, 0) ==> Balanced(Group(b), 0)
  {
    assert Group(b)[1..] == b + ")";
    ClosesLastIsBalanced(b, 1);
    if Balanced(b, 0) {
      assert Balanced(")", 1) by { assert ")"[1..] == ""; }
      BalancedConcat(b, 0, ")", 1);
    }
  }

  /** Inside parentheses nothing counts as an operator. */
  lemma {:induction false} SilentInside(w: BoolOp -> string, b: string, k: nat, r: string, e: nat)
    requires Balanced(b, k) && e >= 1
    ensures Silent(w, b + r, k + e) <==> Silent(w, r, e)
  {
    if b == "" {
      assert b + r == r;
    } else {
      assert (b + r)[1..] == b[1..] + r;
      SilentInside(w, b[1..], if b[0] == '(' then k + 1 else if b[0] == ')' then k - 1 else k, r, e);
    }
  }

  /** A group hides whatever operators it contains. */
  lemma GroupSilent(w: BoolOp -> string, b: string)
    requires Balanced(b, 0)
    ensures Silent(w, Group(b), 0) && Silent(w, Group(b) + " ", 0)
  {
    assert Group(b)[1..] == b + ")" && (Group(b) + " ")[1..] == b + ") ";
    SilentInside(w, b, 0, ")", 1);
    SilentInside(w, b, 0, ") ", 1);
    assert ")"[1..] == "" && ") "[1..] == " ";
    SilentBlank(w);
  }

  /** Text without parentheses changes no depth. */
  lemma {:induction false} BalancedPlain(t: string, r: string, d: nat)
    requires forall k :: 0 <= k < |t| ==> t[k] != '(' && t[k] != ')'
    ensures Balanced(t + r, d) <==> Balanced(r, d)
  {
    if t == "" {
      assert t + r == r;
    } else {
      assert (t + r)[1..] == t[1..] + r;
      BalancedPlain(t[1..], r, d);
    }
  }

  lemma BalancedToken(w: BoolOp -> string, op: BoolOp, r: string, d: nat)
    requires IsSpelling(w)
    ensures Balanced(Token(w, op) + r, d) <==> Balanced(r, d)
  {
    assert IsWord(w(op));
    assert forall k :: 0 <= k < |w(op)| ==> Token(w, op)[k + 1] == w(op)[k];
    forall k | 0 <= k < |Token(w, op)| ensures Token(w, op)[k] != '(' && Token(w, op)[k] != ')' {
      if 0 < k < |Token(w, op)| - 1 { assert Token(w, op)[k] == w(op)[k - 1]; }
    }
    BalancedPlain(Token(w, op), r, d);
  }

  /** Operands that are balanced make a balanced body. */
  lemma {:induction false} GlueBalanced(w: BoolOp -> string, parts: seq<string>, ops: seq<BoolOp>)
    requires IsSpelling(w) && |parts| == |ops| + 1 && AllBalanced(parts)
    ensures Balanced(Glue(w, parts, ops), 0)
    decreases |ops|
  {
    if ops != [] {
      assert forall i :: 0 <= i < |parts[1..]| ==> parts[1..][i] == parts[i + 1];
      GlueBalanced(w, parts[1..], ops[1..]);
      BalancedToken(w, ops[0], Glue(w, parts[1..], ops[1..]), 0);
      BalancedConcat(parts[0], 0, Token(w, ops[0]) + Glue(w, parts[1..], ops[1..]), 0);
      assert parts[0] + Token(w, ops[0]) + Glue(w, parts[1..], ops[1..])
          == parts[0] + (Token(w, ops[0]) + Glue(w, parts[1..], ops[1..]));
    }
  }

  /** A balanced body has balanced operands: the cuts are all at depth zero. */
  lemma {:induction false} ReadBalanced(w: BoolOp -> string, s: string, d: nat, cur: string)
    requires IsSpelling(w) && Balanced(s, d)
    ensures var r := Read(w, s, d, cur);
      |cur| <= |r.parts[0]| && Balanced(r.parts[0][|cur|..], d) && AllBalanced(r.parts[1..])
    decreases |s|
  {
    var r := Read(w, s, d, cur);
    ReadPrefix(w, s, d, cur);
    if s == "" {
    } else if s[0] != '(' && s[0] != ')' && d == 0 && TokenAt(w, s).Some? {
      var op := TokenAt(w, s).value;
      var n := |Token(w, op)|;
      assert s == Token(w, op) + s[n..];
      BalancedToken(w, op, s[n..], 0);
      var rest := Read(w, s[n..], 0, "");
      ReadBalanced(w, s[n..], 0, "");
      assert r.parts[1..] == rest.parts && rest.parts[0][0..] == rest.parts[0];
      assert forall i :: 0 < i < |rest.parts| ==> rest.parts[i] == rest.parts[1..][i - 1];
    } else {
      ReadKeepsFirst(w, s, d, cur);
      ReadBalanced(w, s[1..], if s[0] == '(' then d + 1 else if s[0] == ')' then d - 1 else d, cur + [s[0]]);
      assert r.parts[0][|cur|..][1..] == r.parts[0][|cur| + 1..];
    }
  }

  /** A character that is no operator goes into the first operand. */
  lemma ReadKeepsFirst(w: BoolOp -> string, s: string, d: int, cur: string)
    requires s != "" && !(s[0] != '(' && s[0] != ')' && d == 0 && TokenAt(w, s).Some?)
    ensures |cur| < |Read(w, s, d, cur).parts[0]| && Read(w, s, d, cur).parts[0][|cur|] == s[0]
  {
    var d' := if s[0] == '(' then d + 1 else if s[0] == ')' then d - 1 else d;
    ReadRecoverable(w, s[1..], d', cur + [s[0]]);
    var p := Read(w, s, d, cur).parts[0];
    assert p[..|cur| + 1][|cur|] == s[0];
  }
}
