/** Exactly which trees come back when they are printed and parsed again. */
module BooleanRoundTrip {
  import opened Options
  import opened PyText
  import opened BooleanScan
  import opened BooleanSentence
  import opened BooleanDeps

  /** The operands of a compound node, and the operators printed between them. */
  function Operands(n: Node): seq<Node> {
    match n
    case Cap(_) => []
    case Chain(_, children) => children
    case Minus(l, r) => [l, r]
    case Conditional(_, t, c, other) => if other.Some? then [t, c, other.value] else [t, c]
  }

  function Operators(n: Node): seq<BoolOp> {
    match n
    case Cap(_) => []
    case Chain(op, children) => seq(if |children| == 0 then 0 else |children| - 1, _ => op)
    case Minus(_, _) => [Without]
    case Conditional(op, _, _, other) => if other.Some? then [op, Else] else [op]
  }

  /** A form rpm has: at least two operands, joined by operators that may be used that way. */
  predicate WellFormed(n: Node) {
    match n
    case Cap(_) => false
    case Chain(op, children) => |children| >= 2 && (op.And? || op.Or? || op.With?)
    case Minus(_, _) => true
    case Conditional(op, _, _, _) => op.If? || op.Unless?
  }

  function UnparseAll(w: BoolOp -> string, ns: seq<Node>): (r: seq<string>)
    ensures |r| == |ns| && forall i :: 0 <= i < |ns| ==> r[i] == Unparse(w, ns[i])
  {
    if ns == [] then [] else [Unparse(w, ns[0])] + UnparseAll(w, ns[1..])
  }

  /**
   * A capability that survives as an operand.  Unless it comes last it is
   * followed by a blank, so it must not end in an operator word either.
   */
  ghost predicate PlainCap(w: BoolOp -> string, c: string, last: bool) {
    && c != "" && Trimmed(c) && Balanced(c, 0) && !IsSingleGroup(c)
    && Silent(w, if last then c else c + " ", 0)
  }

  ghost predicate OperandOk(w: BoolOp -> string, n: Node, last: bool)
    decreases n, 1
  {
    if n.Cap? then PlainCap(w, n.text, last) else Printable(w, n)
  }

  /** The trees that printing preserves. */
  ghost predicate Printable(w: BoolOp -> string, n: Node)
    decreases n, 0
  {
    && WellFormed(n)
    && match n
       case Cap(_) => false
       case Chain(_, children) =>
         forall i :: 0 <= i < |children| ==> OperandOk(w, children[i], i == |children| - 1)
       case Minus(l, r) => OperandOk(w, l, false) && OperandOk(w, r, true)
       case Conditional(_, t, c, other) =>
         && OperandOk(w, t, false) && OperandOk(w, c, other.None?)
         && (other.Some? ==> OperandOk(w, other.value, true))
  }

  /** Every operand of `n` may stand where it stands. */
  ghost predicate OperandsOk(w: BoolOp -> string, n: Node) {
    forall i :: 0 <= i < |Operands(n)| ==> OperandOk(w, Operands(n)[i], i == |Operands(n)| - 1)
  }

  lemma PrintableOperands(w: BoolOp -> string, n: Node)
    ensures Printable(w, n) <==> WellFormed(n) && OperandsOk(w, n)
  {
    var k := Operands(n);
    match n
    case Cap(_) =>
    case Chain(_, _) =>
    case Minus(l, r) =>
      assert k[0] == l && k[1] == r && |k| == 2;
      assert OperandsOk(w, n) ==> OperandOk(w, k[0], false) && OperandOk(w, k[1], true);
    case Conditional(_, t, c, other) =>
      assert k[0] == t && k[1] == c;
      if other.Some? {
        assert k[2] == other.value && |k| == 3;
        assert OperandsOk(w, n) ==> OperandOk(w, k[0], false) && OperandOk(w, k[1], false) && OperandOk(w, k[2], true);
      } else {
        assert |k| == 2;
        assert OperandsOk(w, n) ==> OperandOk(w, k[0], false) && OperandOk(w, k[1], true);
      }
  }

  lemma OperandsSmaller(n: Node)
    ensures forall i :: 0 <= i < |Operands(n)| ==> Operands(n)[i] < n
  {
  }

  // ── Printing is gluing ───────────────────────────────────────────────

  lemma {:induction false} JoinIsGlue(w: BoolOp -> string, ns: seq<Node>, op: BoolOp)
    requires ns != []
    ensures JoinNodes(w, ns, Token(w, op)) == Glue(w, UnparseAll(w, ns), seq(|ns| - 1, _ => op))
  {
    if |ns| > 1 {
      JoinIsGlue(w, ns[1..], op);
      assert seq(|ns| - 1, _ => op)[1..] == seq(|ns| - 2, _ => op);
      assert UnparseAll(w, ns)[1..] == UnparseAll(w, ns[1..]);
    }
  }

  lemma BodyIsGlue(w: BoolOp -> string, n: Node)
    requires WellFormed(n)
    ensures |Operands(n)| == |Operators(n)| + 1 && Operators(n) != []
    ensures Body(w, n) == Glue(w, UnparseAll(w, Operands(n)), Operators(n))
  {
    match n
    case Chain(op, children) => JoinIsGlue(w, children, op);
    case Minus(l, r) => GlueTwo(w, Unparse(w, l), Without, Unparse(w, r));
      assert UnparseAll(w, [l, r]) == [Unparse(w, l), Unparse(w, r)];
    case Conditional(op, t, c, other) =>
      if other.None? {
        GlueTwo(w, Unparse(w, t), op, Unparse(w, c));
        assert UnparseAll(w, [t, c]) == [Unparse(w, t), Unparse(w, c)];
      } else {
        var e := other.value;
        GlueThree(w, Unparse(w, t), op, Unparse(w, c), Else, Unparse(w, e));
        assert UnparseAll(w, [t, c, e]) == [Unparse(w, t), Unparse(w, c), Unparse(w, e)];
      }
  }

  lemma GlueTwo(w: BoolOp -> string, a: string, op: BoolOp, b: string)
    ensures Glue(w, [a, b], [op]) == a + Token(w, op) + b
  {
    assert [a, b][1..] == [b] && [op][1..] == [];
  }

  lemma GlueThree(w: BoolOp -> string, a: string, op: BoolOp, b: string, op': BoolOp, c: string)
    ensures Glue(w, [a, b, c], [op, op']) == a + Token(w, op) + b + (Token(w, op') + c)
  {
    assert [a, b, c][1..] == [b, c] && [op, op'][1..] == [op'];
    GlueTwo(w, b, op', c);
  }

  /** Building is undone by taking apart, and the other way round. */
  lemma BuildOperands(n: Node)
    requires WellFormed(n)
    ensures |Operands(n)| == |Operators(n)| + 1 && Operators(n) != [] && Build(Operators(n), Operands(n)) == Some(n)
  {
  }

  lemma BuildInverse(ops: seq<BoolOp>, kids: seq<Node>, n: Node)
    requires |kids| == |ops| + 1 && ops != [] && Build(ops, kids) == Some(n)
    ensures WellFormed(n) && Operators(n) == ops && Operands(n) == kids
  {
  }

  // ── Printable trees come back ────────────────────────────────────────

  lemma {:induction false} GlueSuffix(w: BoolOp -> string, parts: seq<string>, ops: seq<BoolOp>)
    requires |parts| == |ops| + 1
    ensures var g, z := Glue(w, parts, ops), parts[|parts| - 1]; |z| <= |g| && g[|g| - |z|..] == z
    decreases |ops|
  {
    if ops == [] {
      assert parts[0][0..] == parts[0];
    } else {
      GlueSuffix(w, parts[1..], ops[1..]);
      var z, h := parts[|parts| - 1], Glue(w, parts[1..], ops[1..]);
      assert parts[1..][|parts[1..]| - 1] == z;
      var g := Glue(w, parts, ops);
      assert g[|g| - |h|..] == h;
      assert g[|g| - |z|..] == h[|h| - |z|..];
    }
  }

  /** A body whose first and last operands are trimmed is trimmed. */
  lemma GlueTrimmed(w: BoolOp -> string, parts: seq<string>, ops: seq<BoolOp>)
    requires |parts| == |ops| + 1
    requires parts[0] != "" && Trimmed(parts[0]) && parts[|parts| - 1] != "" && Trimmed(parts[|parts| - 1])
    ensures Glue(w, parts, ops) != "" && Trimmed(Glue(w, parts, ops))
  {
    GlueSuffix(w, parts, ops);
    var g, z := Glue(w, parts, ops), parts[|parts| - 1];
    assert g[0] == parts[0][0];
    assert g[|g| - |z|..][|z| - 1] == z[|z| - 1];
  }

  /** Text that stands as an operand by itself. */
  ghost predicate Standing(w: BoolOp -> string, t: string, last: bool) {
    t != "" && Trimmed(t) && Balanced(t, 0) && Silent(w, if last then t else t + " ", 0)
  }

  /** What is known of a printed body that parses back. */
  ghost predicate BodyOk(w: BoolOp -> string, n: Node)
    requires WellFormed(n)
  {
    var b := Body(w, n);
    && b != "" && Trimmed(b) && Balanced(b, 0) && Read(w, b, 0, "").ops != [] && Parse(w, b) == Some(n)
  }

  lemma {:induction false} OperandParses(w: BoolOp -> string, n: Node, last: bool)
    requires IsSpelling(w) && OperandOk(w, n, last)
    ensures Standing(w, Unparse(w, n), last) && Parse(w, Unparse(w, n)) == Some(n)
    decreases n, 1
  {
    var t := Unparse(w, n);
    if n.Cap? {
      StripTrimmed(t);
      CapAlone(w, t, last);
    } else {
      PrintableParses(w, n);
      GroupParses(w, n, Body(w, n));
    }
  }

  /** A plain capability contains no operator when read by itself. */
  lemma CapAlone(w: BoolOp -> string, t: string, last: bool)
    requires IsSpelling(w) && Balanced(t, 0) && Silent(w, if last then t else t + " ", 0)
    ensures Read(w, t, 0, "") == Sentence([t], [])
  {
    assert "" + t == t;
    if last {
      ReadSilent(w, t, 0, "");
    } else {
      ReadOperand(w, t, "", 0, "");
      assert t + "" == t;
    }
  }

  lemma GroupParses(w: BoolOp -> string, n: Node, b: string)
    requires b != "" && Trimmed(b) && Balanced(b, 0) && Read(w, b, 0, "").ops != [] && Parse(w, b) == Some(n)
    ensures Standing(w, Group(b), true) && Standing(w, Group(b), false) && Parse(w, Group(b)) == Some(n)
  {
    var g := Group(b);
    GroupIsSingle(b);
    GroupSilent(w, b);
    StripTrimmed(g);
    StripTrimmed(b);
    assert g[1..|g| - 1] == b;
  }

  lemma {:induction false} PrintableParses(w: BoolOp -> string, n: Node)
    requires IsSpelling(w) && Printable(w, n)
    ensures BodyOk(w, n)
    decreases n, 0
  {
    var kids, ops := Operands(n), Operators(n);
    var parts := UnparseAll(w, kids);
    PrintableOperands(w, n);
    OperandsSmaller(n);
    BodyIsGlue(w, n);
    forall i | 0 <= i < |kids|
      ensures Standing(w, parts[i], i == |kids| - 1) && Parse(w, parts[i]) == Some(kids[i])
    {
      OperandParses(w, kids[i], i == |kids| - 1);
    }
    BodyParses(w, n, parts);
  }

  /** Operands that stand and parse make a body that parses. */
  lemma BodyParses(w: BoolOp -> string, n: Node, parts: seq<string>)
    requires IsSpelling(w) && WellFormed(n)
    requires |parts| == |Operands(n)| == |Operators(n)| + 1 && Body(w, n) == Glue(w, parts, Operators(n))
    requires forall i :: 0 <= i < |parts| ==>
      Standing(w, parts[i], i == |parts| - 1) && Parse(w, parts[i]) == Some(Operands(n)[i])
    ensures BodyOk(w, n)
  {
    var b := Body(w, n);
    GlueTrimmed(w, parts, Operators(n));
    GlueBalanced(w, parts, Operators(n));
    ReadGlue(w, parts, Operators(n));
    BuildOperands(n);
    NotOneGroup(w, b);
    ParseFromOperands(w, b, Operands(n));
  }

  /** Text with an operator in it is not one group: a group hides its operators. */
  lemma NotOneGroup(w: BoolOp -> string, b: string)
    requires Read(w, b, 0, "").ops != []
    ensures !IsSingleGroup(b)
  {
    if IsSingleGroup(b) {
      Ungroup(b);
      GroupSilent(w, b[1..|b| - 1]);
      ReadSilent(w, b, 0, "");
    }
  }

  /** One group is a balanced body in parentheses. */
  lemma Ungroup(g: string)
    requires IsSingleGroup(g)
    ensures |g| >= 2 && g == Group(g[1..|g| - 1]) && Balanced(g[1..|g| - 1], 0)
  {
    assert |g| >= 2;
    assert g == Group(g[1..|g| - 1]);
    GroupIsSingle(g[1..|g| - 1]);
  }

  // ── Trees that come back are printable ───────────────────────────────

  lemma {:induction false} BalancedPlainAfter(t: string, r: string, d: nat)
    requires forall k :: 0 <= k < |r| ==> r[k] != '(' && r[k] != ')'
    ensures Balanced(t + r, d) <==> Balanced(t, d)
  {
    if t == "" {
      BalancedPlain(r, "", d);
      assert r + "" == r && "" + r == r;
    } else {
      assert (t + r)[1..] == t[1..] + r;
      if t[0] == '(' {
        BalancedPlainAfter(t[1..], r, d + 1);
      } else if t[0] == ')' {
        if d > 0 { BalancedPlainAfter(t[1..], r, d - 1); }
      } else {
        BalancedPlainAfter(t[1..], r, d);
      }
    }
  }

  lemma {:induction false} SilentPrefix(w: BoolOp -> string, a: string, b: string, d: int)
    requires Silent(w, a + b, d)
    ensures Silent(w, a, d)
  {
    if a != "" {
      assert (a + b)[1..] == a[1..] + b;
      if TokenAt(w, a).Some? { assert BeginsWith(w, a + b, TokenAt(w, a).value); }
      SilentPrefix(w, a[1..], b, if a[0] == '(' then d + 1 else if a[0] == ')' then d - 1 else d);
    }
  }

  /** Stripping blanks keeps text balanced and silent. */
  lemma {:induction false} LStripKeeps(w: BoolOp -> string, s: string)
    ensures Balanced(s, 0) ==> Balanced(LStrip(s), 0)
    ensures Silent(w, s, 0) ==> Silent(w, LStrip(s), 0)
  {
    if s != "" && IsSpace(s[0]) { LStripKeeps(w, s[1..]); }
  }

  lemma {:induction false} RStripKeeps(w: BoolOp -> string, s: string)
    ensures Balanced(s, 0) ==> Balanced(RStrip(s), 0)
    ensures Silent(w, s, 0) ==> Silent(w, RStrip(s), 0)
  {
    if s != "" && IsSpace(s[|s| - 1]) {
      var t := s[..|s| - 1];
      assert s == t + [s[|s| - 1]];
      BalancedPlainAfter(t, [s[|s| - 1]], 0);
      if Silent(w, s, 0) { SilentPrefix(w, t, [s[|s| - 1]], 0); }
      RStripKeeps(w, t);
    }
  }

  lemma StripKeeps(w: BoolOp -> string, s: string)
    ensures Balanced(s, 0) ==> Balanced(Strip(s), 0)
    ensures Silent(w, s, 0) ==> Silent(w, Strip(s), 0)
  {
    LStripKeeps(w, s);
    RStripKeeps(w, LStrip(s));
  }

  /** Stripping that shortens nothing changes nothing. */
  lemma StripSameLength(s: string)
    requires |Strip(s)| == |s|
    ensures Strip(s) == s
  {
    assert |LStrip(s)| == |s|;
  }

  /** Printing back what was read of balanced text is never longer than the text in parentheses. */
  ghost predicate SizeOk(w: BoolOp -> string, text: string, m: Node) {
    var t := Strip(text);
    var s := Read(w, t, 0, "");
    if s.ops == [] then |Unparse(w, m)| <= |t|
    else
      && WellFormed(m) && Operators(m) == s.ops && |Operands(m)| == |s.parts|
      && !IsSingleGroup(t) && |Body(w, m)| <= |t|
      && (forall i :: 0 <= i < |s.parts| ==> Parse(w, s.parts[i]) == Some(Operands(m)[i]))
      && (|Body(w, m)| == |t| ==> Lengths(w, Operands(m), s.parts))
  }

  ghost predicate Lengths(w: BoolOp -> string, ns: seq<Node>, parts: seq<string>)
    requires |ns| == |parts|
  {
    forall i :: 0 <= i < |parts| ==> |Unparse(w, ns[i])| == |parts[i]|
  }

  /** Shorter operands make a shorter body, and only operands of the same lengths one of the same length. */
  lemma {:induction false} GlueMonotone(w: BoolOp -> string, a: seq<string>, b: seq<string>, ops: seq<BoolOp>)
    requires |a| == |b| == |ops| + 1 && forall i :: 0 <= i < |a| ==> |a[i]| <= |b[i]|
    ensures |Glue(w, a, ops)| <= |Glue(w, b, ops)|
    ensures |Glue(w, a, ops)| == |Glue(w, b, ops)| ==> forall i :: 0 <= i < |a| ==> |a[i]| == |b[i]|
    decreases |ops|
  {
    if ops != [] {
      assert forall i :: 0 <= i < |a[1..]| ==> a[1..][i] == a[i + 1] && b[1..][i] == b[i + 1];
      GlueMonotone(w, a[1..], b[1..], ops[1..]);
      assert forall i :: 0 < i < |a| ==> a[i] == a[1..][i - 1] && b[i] == b[1..][i - 1];
    }
  }

  lemma {:induction false} GlueInjective(w: BoolOp -> string, a: seq<string>, b: seq<string>, ops: seq<BoolOp>)
    requires |a| == |b| == |ops| + 1 && forall i :: 0 <= i < |a| ==> |a[i]| == |b[i]|
    requires Glue(w, a, ops) == Glue(w, b, ops)
    ensures a == b
    decreases |ops|
  {
    if ops == [] {
      assert a == [a[0]] && b == [b[0]];
    } else {
      var n := |a[0]| + |Token(w, ops[0])|;
      assert Glue(w, a, ops)[..|a[0]|] == a[0] && Glue(w, b, ops)[..|b[0]|] == b[0];
      assert Glue(w, a, ops)[n..] == Glue(w, a[1..], ops[1..]) && Glue(w, b, ops)[n..] == Glue(w, b[1..], ops[1..]);
      assert forall i :: 0 <= i < |a[1..]| ==> a[1..][i] == a[i + 1] && b[1..][i] == b[i + 1];
      GlueInjective(w, a[1..], b[1..], ops[1..]);
      assert a == [a[0]] + a[1..] && b == [b[0]] + b[1..];
    }
  }

  /** An operand that was cut out of a balanced body is balanced and, stripped, silent. */
  lemma CutOperand(w: BoolOp -> string, t: string, i: nat)
    requires IsSpelling(w) && Balanced(t, 0) && i < |Read(w, t, 0, "").parts|
    ensures var s := Read(w, t, 0, "");
      && Balanced(s.parts[i], 0)
      && Silent(w, if i < |s.parts| - 1 then s.parts[i] + " " else s.parts[i], 0)
      && Silent(w, s.parts[i], 0)
  {
    var s := Read(w, t, 0, "");
    ReadBalanced(w, t, 0, "");
    ReadRecoverable(w, t, 0, "");
    assert s.parts[0][0..] == s.parts[0];
    assert s.parts[0] + "" == s.parts[0];
    assert i > 0 ==> s.parts[i] == s.parts[1..][i - 1];
    if i < |s.parts| - 1 { SilentPrefix(w, s.parts[i], " ", 0); }
  }

  lemma {:induction false} ParsedSize(w: BoolOp -> string, text: string, m: Node)
    requires IsSpelling(w) && Balanced(Strip(text), 0) && Parse(w, text) == Some(m)
    ensures SizeOk(w, text, m)
    decreases |text|
  {
    var t := Strip(text);
    var s := Read(w, t, 0, "");
    StripTrimmed(t);
    if IsSingleGroup(t) {
      Ungroup(t);
      GroupSilent(w, t[1..|t| - 1]);
      ReadSilent(w, t, 0, "");
      var inner := Strip(t[1..|t| - 1]);
      StripKeeps(w, t[1..|t| - 1]);
      StripTrimmed(inner);
      if Read(w, inner, 0, "").ops != [] {
        ParsedSize(w, inner, m);
      }
    } else if s.ops != [] {
      CompoundSize(w, text, m);
    }
  }

  /** What parsing a compound says about the tree it gives. */
  lemma CompoundParts(w: BoolOp -> string, t: string, m: Node)
    requires IsCompound(w, t) && Parse(w, t) == Some(m)
    ensures var s := Read(w, t, 0, "");
      && WellFormed(m) && Operators(m) == s.ops && |Operands(m)| == |s.parts| && Glue(w, s.parts, s.ops) == t
      && (forall i :: 0 <= i < |s.parts| ==>
            |s.parts[i]| < |t| && Parse(w, s.parts[i]) == Some(Operands(m)[i]))
  {
    var s := Read(w, t, 0, "");
    StripTrimmed(t);
    ReadLossless(w, t, 0, "");
    assert "" + t == t;
    PartsShorter(w, s.parts, s.ops);
    ParseAllEach(w, s.parts, |t|);
    BuildInverse(s.ops, ParseAll(w, s.parts, |t|).value, m);
  }

  lemma {:induction false} OperandSize(w: BoolOp -> string, t: string, i: nat, kid: Node)
    requires IsSpelling(w) && Balanced(t, 0) && i < |Read(w, t, 0, "").parts|
    requires |Read(w, t, 0, "").parts[i]| < |t| && Parse(w, Read(w, t, 0, "").parts[i]) == Some(kid)
    ensures |Unparse(w, kid)| <= |Read(w, t, 0, "").parts[i]|
    decreases |t|, 0
  {
    var p := Read(w, t, 0, "").parts[i];
    CutOperand(w, t, i);
    StripKeeps(w, p);
    ParsedSize(w, p, kid);
    ReadSilent(w, Strip(p), 0, "");
  }

  lemma {:induction false} CompoundSize(w: BoolOp -> string, text: string, m: Node)
    requires IsSpelling(w) && Balanced(Strip(text), 0) && Parse(w, text) == Some(m)
    requires IsCompound(w, Strip(text))
    ensures SizeOk(w, text, m)
    decreases |text|, 1
  {
    var t := Strip(text);
    var s := Read(w, t, 0, "");
    ParseStrip(w, text);
    CompoundParts(w, t, m);
    BodyIsGlue(w, m);
    forall i | 0 <= i < |s.parts| ensures |Unparse(w, Operands(m)[i])| <= |s.parts[i]| {
      OperandSize(w, t, i, Operands(m)[i]);
    }
    GlueMonotone(w, UnparseAll(w, Operands(m)), s.parts, s.ops);
  }

  /** A body that parses back to its own tree was cut into operands of the lengths it was glued from. */
  lemma SameLengths(w: BoolOp -> string, n: Node)
    requires IsSpelling(w) && !n.Cap? && Balanced(Body(w, n), 0) && Parse(w, Body(w, n)) == Some(n)
    ensures var s := Read(w, Body(w, n), 0, "");
      && WellFormed(n) && Operators(n) == s.ops && |Operands(n)| == |s.parts| && Lengths(w, Operands(n), s.parts)
      && (forall i :: 0 <= i < |s.parts| ==> Parse(w, s.parts[i]) == Some(Operands(n)[i]))
  {
    var b := Body(w, n);
    StripKeeps(w, b);
    ParsedSize(w, b, n);
    assert |Unparse(w, n)| == |b| + 2;
    StripSameLength(b);
  }

  /** A body that parses back to its own tree was cut exactly where it was glued. */
  lemma ExactCut(w: BoolOp -> string, n: Node)
    requires IsSpelling(w) && !n.Cap? && Balanced(Body(w, n), 0) && Parse(w, Body(w, n)) == Some(n)
    ensures WellFormed(n) && Read(w, Body(w, n), 0, "") == Sentence(UnparseAll(w, Operands(n)), Operators(n))
    ensures forall i :: 0 <= i < |Operands(n)| ==> Parse(w, Unparse(w, Operands(n)[i])) == Some(Operands(n)[i])
  {
    SameLengths(w, n);
    CutParts(w, n);
  }

  lemma CutParts(w: BoolOp -> string, n: Node)
    requires WellFormed(n)
    requires var s := Read(w, Body(w, n), 0, "");
      Operators(n) == s.ops && |Operands(n)| == |s.parts| && Lengths(w, Operands(n), s.parts)
    ensures Read(w, Body(w, n), 0, "").parts == UnparseAll(w, Operands(n))
  {
    var b := Body(w, n);
    var s := Read(w, b, 0, "");
    BodyIsGlue(w, n);
    ReadLossless(w, b, 0, "");
    assert "" + b == b;
    SameOperands(w, Operands(n), s.parts, s.ops);
  }

  lemma SameOperands(w: BoolOp -> string, ns: seq<Node>, parts: seq<string>, ops: seq<BoolOp>)
    requires |ns| == |parts| == |ops| + 1 && Lengths(w, ns, parts)
    requires Glue(w, UnparseAll(w, ns), ops) == Glue(w, parts, ops)
    ensures parts == UnparseAll(w, ns)
  {
    GlueInjective(w, UnparseAll(w, ns), parts, ops);
  }

  lemma ExactOperand(w: BoolOp -> string, n: Node, i: nat)
    requires IsSpelling(w) && !n.Cap? && Balanced(Body(w, n), 0) && Parse(w, Body(w, n)) == Some(n)
    requires i < |Operands(n)|
    ensures WellFormed(n)
    ensures var t := Unparse(w, Operands(n)[i]);
      && Parse(w, t) == Some(Operands(n)[i]) && Balanced(t, 0) && Silent(w, t, 0)
      && Silent(w, if i < |Operands(n)| - 1 then t + " " else t, 0)
  {
    ExactCut(w, n);
    CutOperand(w, Body(w, n), i);
  }

  /** A capability that parses back to itself, standing where it stood, is plain. */
  lemma CapIsPlain(w: BoolOp -> string, c: string, last: bool)
    requires IsSpelling(w) && Balanced(c, 0) && Silent(w, if last then c else c + " ", 0)
    requires Parse(w, c) == Some(Cap(c))
    ensures PlainCap(w, c, last)
  {
    StripTrimmed(c);
    if IsSingleGroup(Strip(c)) {
      var t := Strip(c);
      Ungroup(t);
      StripKeeps(w, t[1..|t| - 1]);
      var inner := Strip(t[1..|t| - 1]);
      StripTrimmed(inner);
      if Read(w, inner, 0, "").ops != [] { ParsedSize(w, inner, Cap(c)); }
    }
  }

  /** A group that parses back to the compound it was printed from holds that compound's body. */
  lemma GroupBack(w: BoolOp -> string, n: Node)
    requires IsSpelling(w) && !n.Cap? && Balanced(Unparse(w, n), 0) && Silent(w, Unparse(w, n), 0)
    requires Parse(w, Unparse(w, n)) == Some(n)
    ensures Balanced(Body(w, n), 0) && Parse(w, Body(w, n)) == Some(n)
  {
    var b := Body(w, n);
    var g := Group(b);
    StripTrimmed(g);
    ReadSilent(w, g, 0, "");
    assert g[1..|g| - 1] == b;
    GroupIsSingle(b);
    ParseStrip(w, b);
  }

  lemma {:induction false} ParsesIsPrintable(w: BoolOp -> string, n: Node)
    requires IsSpelling(w) && !n.Cap? && Balanced(Body(w, n), 0) && Parse(w, Body(w, n)) == Some(n)
    ensures Printable(w, n)
    decreases n
  {
    ExactCut(w, n);
    OperandsSmaller(n);
    forall i | 0 <= i < |Operands(n)| ensures OperandOk(w, Operands(n)[i], i == |Operands(n)| - 1) {
      var kid := Operands(n)[i];
      ExactOperand(w, n, i);
      if kid.Cap? {
        CapIsPlain(w, kid.text, i == |Operands(n)| - 1);
      } else {
        GroupBack(w, kid);
        ParsesIsPrintable(w, kid);
      }
    }
    PrintableOperands(w, n);
  }

  // ── The law ──────────────────────────────────────────────────────────

  /** A balanced, trimmed body in parentheses parses as the body does. */
  lemma BooleanOfBody(w: BoolOp -> string, b: string)
    requires b != "" && Trimmed(b) && Balanced(b, 0)
    ensures ParseBoolean(w, Group(b)) == Parse(w, b)
  {
    var g := Group(b);
    GroupIsSingle(b);
    StripTrimmed(g);
    StripTrimmed(b);
    assert g[1..|g| - 1] == b;
  }

  lemma PrintableComesBack(w: BoolOp -> string, n: Node)
    requires IsSpelling(w) && Printable(w, n)
    ensures ParseBoolean(w, Unparse(w, n)) == Some(n)
  {
    PrintableParses(w, n);
    BooleanOfBody(w, Body(w, n));
  }

  /** A bare capability is never what a parenthesised text parses to when that text is the capability. */
  lemma CapNeverComesBack(w: BoolOp -> string, c: string)
    requires IsSpelling(w)
    ensures ParseBoolean(w, c) != Some(Cap(c))
  {
    var t := Strip(c);
    if IsSingleGroup(t) && ParseBoolean(w, c) == Some(Cap(c)) {
      GroupedCapSize(w, t, c);
    }
  }

  lemma GroupedCapSize(w: BoolOp -> string, g: string, c: string)
    requires IsSpelling(w) && IsSingleGroup(g) && Parse(w, Strip(g[1..|g| - 1])) == Some(Cap(c))
    ensures |c| < |g|
  {
    Ungroup(g);
    var raw := g[1..|g| - 1];
    StripKeeps(w, raw);
    StripTrimmed(Strip(raw));
    CapSize(w, Strip(raw), c);
  }

  /** What parses to a capability is no shorter than the capability. */
  lemma CapSize(w: BoolOp -> string, text: string, c: string)
    requires IsSpelling(w) && Balanced(text, 0) && Strip(text) == text && Parse(w, text) == Some(Cap(c))
    ensures |c| <= |text|
  {
    ParsedSize(w, text, Cap(c));
  }

  lemma CompoundComesBack(w: BoolOp -> string, n: Node)
    requires IsSpelling(w) && !n.Cap? && ParseBoolean(w, Unparse(w, n)) == Some(n)
    ensures Printable(w, n)
  {
    var b := Body(w, n);
    var g := Group(b);
    StripTrimmed(g);
    assert g[1..|g| - 1] == b;
    GroupIsSingle(b);
    ParseStrip(w, b);
    ParsesIsPrintable(w, n);
  }

  /** Parsing undoes printing exactly on the printable trees. */
  lemma RoundTripIff(w: BoolOp -> string, n: Node)
    requires IsSpelling(w)
    ensures ParseBoolean(w, Unparse(w, n)) == Some(n) <==> Printable(w, n)
  {
    if Printable(w, n) { PrintableComesBack(w, n); }
    if ParseBoolean(w, Unparse(w, n)) == Some(n) {
      if n.Cap? {
        CapNeverComesBack(w, n.text);
      } else {
        CompoundComesBack(w, n);
      }
    }
  }

  /** The same law for rpm's own operator words. */
  lemma RpmRoundTripIff(n: Node)
    ensures ParseBoolean(RpmWord, Unparse(RpmWord, n)) == Some(n) <==> Printable(RpmWord, n)
  {
    RpmSpelling();
    RoundTripIff(RpmWord, n);
  }

  // ── Not every tree the parser makes is printable ─────────────────────

  function DoubledText(w: BoolOp -> string, a: string, b: string): string {
    Group(a + Token(w, Or) + Group(Group(b)))
  }

  function DoubledTree(a: string, b: string): Node {
    Chain(Or, [Cap(a), Cap(Group(b))])
  }

  /** Doubled parentheses around a capability leave one pair inside it. */
  lemma DoubledGroupParses(w: BoolOp -> string, a: string, b: string)
    requires IsSpelling(w) && PlainCap(w, a, false) && PlainCap(w, b, true)
    ensures ParseBoolean(w, DoubledText(w, a, b)) == Some(DoubledTree(a, b))
  {
    var body := a + Token(w, Or) + Group(Group(b));
    GlueTwo(w, a, Or, Group(Group(b)));
    OperandParses(w, Cap(a), false);
    DoubledOperand(w, b);
    var parts := [a, Group(Group(b))];
    GlueBalanced(w, parts, [Or]);
    GlueTrimmed(w, parts, [Or]);
    ReadGlue(w, parts, [Or]);
    NotOneGroup(w, body);
    ParseFromOperands(w, body, [Cap(a), Cap(Group(b))]);
    BooleanOfBody(w, body);
  }

  /** Which printing then loses. */
  lemma DoubledGroupIsLost(w: BoolOp -> string, a: string, b: string)
    requires IsSpelling(w) && PlainCap(w, b, true)
    ensures ParseBoolean(w, Unparse(w, DoubledTree(a, b))) != Some(DoubledTree(a, b))
  {
    var t := DoubledTree(a, b);
    GroupIsSingle(b);
    PrintableOperands(w, t);
    assert Operands(t)[1] == Cap(Group(b));
    RoundTripIff(w, t);
  }

  lemma DoubledOperand(w: BoolOp -> string, b: string)
    requires IsSpelling(w) && PlainCap(w, b, true)
    ensures Standing(w, Group(Group(b)), true) && Parse(w, Group(Group(b))) == Some(Cap(Group(b)))
  {
    var g := Group(b);
    GroupIsSingle(b);
    GroupIsSingle(g);
    GroupSilent(w, b);
    GroupSilent(w, g);
    ReadSilent(w, g, 0, "");
    StripTrimmed(Group(g));
    StripTrimmed(g);
    assert Group(g)[1..|Group(g)| - 1] == g;
  }

  /** `(a or ((b)))` parses, and printing what it parses to and parsing that gives another tree. */
  lemma ParsedButNotPrintable(text: string, a: string, b: string)
    requires text == "(a or ((b)))" && a == "a" && b == "b"
    ensures ParseBoolean(RpmWord, text) == Some(DoubledTree(a, b))
    ensures ParseBoolean(RpmWord, Unparse(RpmWord, DoubledTree(a, b))) != Some(DoubledTree(a, b))
  {
    RpmSpelling();
    Letter(a);
    Letter(b);
    DoubledGroupParses(RpmWord, a, b);
    DoubledGroupIsLost(RpmWord, a, b);
    DoubledSpelled(text, a, b);
  }

  lemma DoubledSpelled(text: string, a: string, b: string)
    requires text == "(a or ((b)))" && a == "a" && b == "b"
    ensures DoubledText(RpmWord, a, b) == text
  {
  }

  lemma Letter(c: string)
    requires |c| == 1 && 'a' <= c[0] <= 'z'
    ensures PlainCap(RpmWord, c, true) && PlainCap(RpmWord, c, false)
  {
    forall op ensures !BeginsWith(RpmWord, c, op) && !BeginsWith(RpmWord, c + " ", op) {
      assert Token(RpmWord, op)[0] == ' ';
    }
    assert c[1..] == "" && (c + " ")[1..] == " " && (c + " ")[0] == c[0];
    SilentBlank(RpmWord);
  }
}
