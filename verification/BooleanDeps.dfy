/** rpm's boolean dependencies: the parser, the printer, and when one undoes the other. */
module BooleanDeps {
  import opened Options
  import opened PyText
  import opened BooleanScan
  import opened BooleanSentence

  datatype Node =
    | Cap(text: string)
    | Chain(op: BoolOp, children: seq<Node>)
    | Minus(left: Node, right: Node)
    | Conditional(op: BoolOp, then_: Node, cond: Node, other: Option<Node>)

  function RpmWord(op: BoolOp): string {
    match op
    case Without => "without"
    case Unless => "unless"
    case With => "with"
    case Else => "else"
    case And => "and"
    case Or => "or"
    case If => "if"
  }

  // ── Printing ─────────────────────────────────────────────────────────

  /** A tree in rpm's syntax. */
  function Unparse(w: BoolOp -> string, n: Node): string
    decreases n, 1
  {
    if n.Cap? then n.text else Group(Body(w, n))
  }

  /** What stands between the outer parentheses. */
  function Body(w: BoolOp -> string, n: Node): string
    requires !n.Cap?
    decreases n, 0
  {
    match n
    case Chain(op, children) => JoinNodes(w, children, Token(w, op))
    case Minus(l, r) => Unparse(w, l) + Token(w, Without) + Unparse(w, r)
    case Conditional(op, t, c, other) =>
      Unparse(w, t) + Token(w, op) + Unparse(w, c)
      + (if other.Some? then Token(w, Else) + Unparse(w, other.value) else "")
  }

  /** `sep.join(unparse(c) for c in children)` */
  function JoinNodes(w: BoolOp -> string, children: seq<Node>, sep: string): string {
    if children == [] then ""
    else if |children| == 1 then Unparse(w, children[0])
    else Unparse(w, children[0]) + sep + JoinNodes(w, children[1..], sep)
  }

  // ── Parsing, as the grammar says ─────────────────────────────────────

  /** A node from its operands and the operators between them, or `None` if rpm has no such expression. */
  function Build(ops: seq<BoolOp>, kids: seq<Node>): Option<Node>
    requires |kids| == |ops| + 1 && ops != []
  {
    if ops[0].If? || ops[0].Unless? then
      if |ops| == 1 then Some(Conditional(ops[0], kids[0], kids[1], None))
      else if |ops| == 2 && ops[1].Else? then Some(Conditional(ops[0], kids[0], kids[1], Some(kids[2])))
      else None
    else if (exists i :: 0 <= i < |ops| && ops[i] != ops[0]) || ops[0].Else? then None
    else if ops[0].Without? then (if |kids| == 2 then Some(Minus(kids[0], kids[1])) else None)
    else Some(Chain(ops[0], kids))
  }

  lemma {:induction false} PartsShorter(w: BoolOp -> string, parts: seq<string>, ops: seq<BoolOp>)
    requires |parts| == |ops| + 1
    ensures forall i :: 0 <= i < |parts| ==> |parts[i]| <= |Glue(w, parts, ops)|
    ensures ops != [] ==> forall i :: 0 <= i < |parts| ==> |parts[i]| < |Glue(w, parts, ops)|
    decreases |ops|
  {
    if ops != [] {
      PartsShorter(w, parts[1..], ops[1..]);
      assert forall i :: 0 < i < |parts| ==> parts[i] == parts[1..][i - 1];
    }
  }

  /** The grammar: `None` means the text is not understood. */
  function Parse(w: BoolOp -> string, text: string): Option<Node>
    decreases |text|
  {
    var t := Strip(text);
    if t == "" then None
    else if IsSingleGroup(t) then
      var inner := Strip(t[1..|t| - 1]);
      if Read(w, inner, 0, "").ops != [] then Parse(w, inner) else Some(Cap(inner))
    else
      var s := Read(w, t, 0, "");
      if s.ops == [] then Some(Cap(t))
      else
        ReadLossless(w, t, 0, "");
        PartsShorter(w, s.parts, s.ops);
        var kids := ParseAll(w, s.parts, |t|);
        if kids.None? then None else Build(s.ops, kids.value)
  }

  function ParseAll(w: BoolOp -> string, parts: seq<string>, bound: nat): (r: Option<seq<Node>>)
    requires forall i :: 0 <= i < |parts| ==> |parts[i]| < bound
    ensures r.Some? ==> |r.value| == |parts|
    decreases bound, |parts|
  {
    if parts == [] then Some([])
    else
      var first := Parse(w, parts[0]);
      var rest := ParseAll(w, parts[1..], bound);
      if first.None? || rest.None? then None else Some([first.value] + rest.value)
  }

  function ParseBoolean(w: BoolOp -> string, capability: string): Option<Node> {
    var text := Strip(capability);
    if !IsSingleGroup(text) then None else Parse(w, Strip(text[1..|text| - 1]))
  }

  // ── Parsing, as the code does it ─────────────────────────────────────

  lemma {:induction false} ParseAllEach(w: BoolOp -> string, parts: seq<string>, bound: nat)
    requires forall i :: 0 <= i < |parts| ==> |parts[i]| < bound
    ensures var r := ParseAll(w, parts, bound);
      && (r.None? <==> exists i :: 0 <= i < |parts| && Parse(w, parts[i]).None?)
      && (r.Some? ==> forall i :: 0 <= i < |parts| ==> Parse(w, parts[i]) == Some(r.value[i]))
    decreases |parts|
  {
    if parts != [] {
      var tail := parts[1..];
      ParseAllEach(w, tail, bound);
      var r, rest := ParseAll(w, parts, bound), ParseAll(w, tail, bound);
      if rest.None? {
        var i :| 0 <= i < |tail| && Parse(w, tail[i]).None?;
        assert parts[i + 1] == tail[i];
      } else {
        forall i | 0 <= i < |parts| ensures Parse(w, parts[i]).None? || r.None? || Parse(w, parts[i]) == Some(r.value[i]) {
          if i > 0 { assert parts[i] == tail[i - 1]; }
        }
        if exists i :: 0 <= i < |parts| && Parse(w, parts[i]).None? {
          var i :| 0 <= i < |parts| && Parse(w, parts[i]).None?;
          assert i > 0 ==> parts[i] == tail[i - 1];
        }
      }
    }
  }

  /** Blanks around an operand do not matter. */
  lemma ParseStrip(w: BoolOp -> string, text: string)
    ensures Parse(w, Strip(text)) == Parse(w, text)
  {
    StripTrimmed(Strip(text));
  }

  /** Text that is neither empty, nor one group, nor a bare capability. */
  ghost predicate IsCompound(w: BoolOp -> string, text: string) {
    text != "" && Trimmed(text) && !IsSingleGroup(text) && Read(w, text, 0, "").ops != []
  }

  /** A compound parses to what its operands build. */
  lemma ParseFromOperands(w: BoolOp -> string, text: string, kids: seq<Node>)
    requires IsCompound(w, text) && |kids| == |Read(w, text, 0, "").parts|
    requires forall i :: 0 <= i < |kids| ==> Parse(w, Read(w, text, 0, "").parts[i]) == Some(kids[i])
    ensures Parse(w, text) == Build(Read(w, text, 0, "").ops, kids)
  {
    var s := Read(w, text, 0, "");
    StripTrimmed(text);
    ReadLossless(w, text, 0, "");
    PartsShorter(w, s.parts, s.ops);
    ParseAllEach(w, s.parts, |text|);
    assert ParseAll(w, s.parts, |text|).value == kids;
  }

  /** A compound with an operand that is not understood is not understood. */
  lemma ParseRefusesOperand(w: BoolOp -> string, text: string, i: nat)
    requires IsCompound(w, text) && i < |Read(w, text, 0, "").parts|
    requires Parse(w, Read(w, text, 0, "").parts[i]).None?
    ensures Parse(w, text).None?
  {
    var s := Read(w, text, 0, "");
    StripTrimmed(text);
    ReadLossless(w, text, 0, "");
    PartsShorter(w, s.parts, s.ops);
    ParseAllEach(w, s.parts, |text|);
  }

  /** Nor is one whose operators rpm does not allow together. */
  lemma ParseRefusesOps(w: BoolOp -> string, text: string)
    requires IsCompound(w, text)
    requires forall kids: seq<Node> :: |kids| == |Read(w, text, 0, "").ops| + 1 ==>
      Build(Read(w, text, 0, "").ops, kids).None?
    ensures Parse(w, text).None?
  {
    StripTrimmed(text);
  }

  /** The scanner reports the operators of the sentence, and every operand is shorter than the text. */
  lemma OperatorsOf(w: BoolOp -> string, text: string, ops: seq<Cut>)
    requires IsCompound(w, text) && ops == Scan(w, text, 0, 0)
    ensures var s := Read(w, text, 0, "");
      && |ops| == |s.ops| && (forall i :: 0 <= i < |ops| ==> ops[i].op == s.ops[i])
      && (forall i :: 0 <= i < |s.parts| ==> |s.parts[i]| < |text|)
  {
    var s := Read(w, text, 0, "");
    GlueOf(w, text, ops);
    PartsShorter(w, s.parts, s.ops);
  }

  lemma GlueOf(w: BoolOp -> string, text: string, ops: seq<Cut>)
    requires ops == Scan(w, text, 0, 0)
    ensures var s := Read(w, text, 0, ""); CutsOf(w, s, 0, ops) && Glue(w, s.parts, s.ops) == text
  {
    ScanIsRead(w, text, 0, "", 0);
    ReadLossless(w, text, 0, "");
    assert "" + text == text;
  }

  /** The slices around one cut are the operands. */
  lemma OneCut(w: BoolOp -> string, text: string, ops: seq<Cut>)
    requires IsCompound(w, text) && ops == Scan(w, text, 0, 0) && |ops| == 1
    ensures var s, a := Read(w, text, 0, ""), ops[0].at;
      var b := a + |w(ops[0].op)| + 2;
      |s.parts| == 2 && b <= |text| && text[..a] == s.parts[0] && text[b..] == s.parts[1]
  {
    GlueOf(w, text, ops);
    var s := Read(w, text, 0, "");
    SliceOne(w, text, s.parts, s.ops);
  }

  /** And so are those between and around two. */
  lemma TwoCuts(w: BoolOp -> string, text: string, ops: seq<Cut>)
    requires IsCompound(w, text) && ops == Scan(w, text, 0, 0) && |ops| == 2
    ensures var s, a, c := Read(w, text, 0, ""), ops[0].at, ops[1].at;
      var b, d := a + |w(ops[0].op)| + 2, c + |w(ops[1].op)| + 2;
      && |s.parts| == 3 && b <= c && d <= |text|
      && text[..a] == s.parts[0] && text[b..c] == s.parts[1] && text[d..] == s.parts[2]
  {
    GlueOf(w, text, ops);
    var s := Read(w, text, 0, "");
    SliceTwo(w, text, s.parts, s.ops);
  }

  lemma SliceOne(w: BoolOp -> string, text: string, parts: seq<string>, ops: seq<BoolOp>)
    requires |parts| == 2 && |ops| == 1 && text == Glue(w, parts, ops)
    ensures var a, b := |parts[0]|, |parts[0]| + |Token(w, ops[0])|;
      b <= |text| && text[..a] == parts[0] && text[b..] == parts[1]
  {
    assert parts[1..] == [parts[1]] && ops[1..] == [];
    assert text == parts[0] + Token(w, ops[0]) + parts[1];
  }

  lemma SliceTwo(w: BoolOp -> string, text: string, parts: seq<string>, ops: seq<BoolOp>)
    requires |parts| == 3 && |ops| == 2 && text == Glue(w, parts, ops)
    ensures var a, b := |parts[0]|, |parts[0]| + |Token(w, ops[0])|;
      var c, d := b + |parts[1]|, b + |parts[1]| + |Token(w, ops[1])|;
      d <= |text| && text[..a] == parts[0] && text[b..c] == parts[1] && text[d..] == parts[2]
  {
    var tail := Glue(w, parts[1..], ops[1..]);
    SliceOne(w, tail, parts[1..], ops[1..]);
    assert text == parts[0] + Token(w, ops[0]) + tail;
    var b := |parts[0]| + |Token(w, ops[0])|;
    assert text[b..] == tail;
  }

  /** `(A if B)` and `(A unless B)` */
  method ParseIf(w: BoolOp -> string, text: string, ops: seq<Cut>) returns (r: Option<Node>)
    requires IsSpelling(w) && IsCompound(w, text)
    requires ops == Scan(w, text, 0, 0) && |ops| == 1 && (ops[0].op.If? || ops[0].op.Unless?)
    ensures r == Parse(w, text)
    decreases |text|, 0
  {
    OperatorsOf(w, text, ops);
    OneCut(w, text, ops);
    var head := ops[0].op;
    var index := ops[0].at;
    ghost var parts := Read(w, text, 0, "").parts;
    var a, b := text[..index], text[index + |w(head)| + 2..];
    assert a == parts[0] && b == parts[1];
    OperandsShorter(w, text);
    var then_ := ParseBody(w, a);
    var cond := ParseBody(w, b);
    if then_.None? || cond.None? {
      ParseRefusesOperand(w, text, if then_.None? then 0 else 1);
      return None;
    }
    ParseFromOperands(w, text, [then_.value, cond.value]);
    return Some(Conditional(head, then_.value, cond.value, None));
  }

  lemma ParseFromThree(w: BoolOp -> string, text: string, a: Node, b: Node, c: Node)
    requires IsCompound(w, text) && |Read(w, text, 0, "").parts| == 3
    requires Parse(w, Read(w, text, 0, "").parts[0]) == Some(a)
    requires Parse(w, Read(w, text, 0, "").parts[1]) == Some(b)
    requires Parse(w, Read(w, text, 0, "").parts[2]) == Some(c)
    ensures Parse(w, text) == Build(Read(w, text, 0, "").ops, [a, b, c])
  {
    ParseFromOperands(w, text, [a, b, c]);
  }

  lemma OperandsShorter(w: BoolOp -> string, text: string)
    requires IsCompound(w, text)
    ensures var s := Read(w, text, 0, ""); forall i :: 0 <= i < |s.parts| ==> |s.parts[i]| < |text|
  {
    var s := Read(w, text, 0, "");
    ReadLossless(w, text, 0, "");
    assert "" + text == text;
    PartsShorter(w, s.parts, s.ops);
  }

  /** `(A if B else C)` and `(A unless B else C)` */
  method ParseIfElse(w: BoolOp -> string, text: string, ops: seq<Cut>) returns (r: Option<Node>)
    requires IsSpelling(w) && IsCompound(w, text) && ops == Scan(w, text, 0, 0) && |ops| == 2
    requires (ops[0].op.If? || ops[0].op.Unless?) && ops[1].op == Else
    ensures r == Parse(w, text)
    decreases |text|, 0
  {
    OperatorsOf(w, text, ops);
    TwoCuts(w, text, ops);
    var head, first, second := ops[0].op, ops[0].at, ops[1].at;
    ghost var parts := Read(w, text, 0, "").parts;
    var a, b, c := text[..first], text[first + |w(head)| + 2..second], text[second + |w(Else)| + 2..];
    assert a == parts[0] && b == parts[1] && c == parts[2];
    OperandsShorter(w, text);
    var then_ := ParseBody(w, a);
    var cond := ParseBody(w, b);
    var other := ParseBody(w, c);
    if then_.None? || cond.None? || other.None? {
      ParseRefusesOperand(w, text, if then_.None? then 0 else if cond.None? then 1 else 2);
      return None;
    }
    ParseFromThree(w, text, then_.value, cond.value, other.value);
    return Some(Conditional(head, then_.value, cond.value, Some(other.value)));
  }

  /** A chain of one operator; mixing them needs parentheses. */
  method ParseChain(w: BoolOp -> string, text: string, ops: seq<Cut>) returns (r: Option<Node>)
    requires IsSpelling(w) && IsCompound(w, text)
    requires ops == Scan(w, text, 0, 0) && ops != [] && !ops[0].op.If? && !ops[0].op.Unless?
    ensures r == Parse(w, text)
    decreases |text|, 1
  {
    OperatorsOf(w, text, ops);
    var op := ops[0].op;
    if (exists i :: 0 <= i < |ops| && ops[i].op != op) || op == Else {
      MixedOps(w, text, ops);
      return None;
    }
    var parts := SplitTopLevel(w, text, op);
    SplitAgrees(w, text, ops);
    var children := ParseChildren(w, parts, |text|);
    forall i | 0 <= i < |parts| ensures Parse(w, parts[i]) == Parse(w, Read(w, text, 0, "").parts[i]) {
      ParseStrip(w, Read(w, text, 0, "").parts[i]);
    }
    if children.None? {
      ghost var i :| 0 <= i < |parts| && Parse(w, parts[i]).None?;
      ParseRefusesOperand(w, text, i);
      return None;
    }
    ParseFromOperands(w, text, children.value);
    if op == Without {
      return if |children.value| != 2 then None else Some(Minus(children.value[0], children.value[1]));
    }
    return Some(Chain(op, children.value));
  }

  method ParseChildren(w: BoolOp -> string, parts: seq<string>, bound: nat) returns (r: Option<seq<Node>>)
    requires IsSpelling(w) && forall i :: 0 <= i < |parts| ==> |parts[i]| < bound
    ensures r.None? ==> exists i :: 0 <= i < |parts| && Parse(w, parts[i]).None?
    ensures r.Some? ==> |r.value| == |parts| && forall i :: 0 <= i < |parts| ==> Parse(w, parts[i]) == Some(r.value[i])
    decreases bound, 0
  {
    var children: seq<Node> := [];
    for i := 0 to |parts|
      invariant |children| == i && forall k :: 0 <= k < i ==> Parse(w, parts[k]) == Some(children[k])
    {
      var child := ParseBody(w, parts[i]);
      if child.None? { return None; }
      children := children + [child.value];
    }
    return Some(children);
  }

  lemma MixedOps(w: BoolOp -> string, text: string, ops: seq<Cut>)
    requires IsCompound(w, text) && ops == Scan(w, text, 0, 0) && ops != []
    requires !ops[0].op.If? && !ops[0].op.Unless?
    requires (exists i :: 0 <= i < |ops| && ops[i].op != ops[0].op) || ops[0].op == Else
    ensures Parse(w, text).None?
  {
    OperatorsOf(w, text, ops);
    var s := Read(w, text, 0, "");
    assert (exists i :: 0 <= i < |s.ops| && s.ops[i] != s.ops[0]) || s.ops[0] == Else;
    ParseRefusesOps(w, text);
  }

  /** The two scanners agree on every cut: splitting on the only operator gives the operands. */
  lemma SplitAgrees(w: BoolOp -> string, text: string, ops: seq<Cut>)
    requires IsSpelling(w) && IsCompound(w, text) && ops == Scan(w, text, 0, 0) && ops != []
    requires forall i :: 0 <= i < |ops| ==> ops[i].op == ops[0].op
    ensures StripAll(Split(w, text, ops[0].op, 0, "")) == StripAll(Read(w, text, 0, "").parts)
    ensures |ops| + 1 == |Read(w, text, 0, "").parts|
    ensures forall p :: p in StripAll(Read(w, text, 0, "").parts) ==> |p| < |text|
  {
    OperatorsOf(w, text, ops);
    SplitIsRead(w, text, ops[0].op, 0, "");
  }

  /** The first operator says which form it is. */
  method ParseCompound(w: BoolOp -> string, text: string, ops: seq<Cut>) returns (r: Option<Node>)
    requires IsSpelling(w) && IsCompound(w, text) && ops == Scan(w, text, 0, 0) && ops != []
    ensures r == Parse(w, text)
    decreases |text|, 2
  {
    if !ops[0].op.If? && !ops[0].op.Unless? {
      r := ParseChain(w, text, ops);
    } else if |ops| == 1 {
      r := ParseIf(w, text, ops);
    } else if |ops| == 2 && ops[1].op == Else {
      r := ParseIfElse(w, text, ops);
    } else {
      OperatorsOf(w, text, ops);
      ParseRefusesOps(w, text);
      r := None;
    }
  }

  /** Parentheses with no operator inside are just parentheses. */
  method ParseGroup(w: BoolOp -> string, text: string) returns (r: Option<Node>)
    requires IsSpelling(w) && Trimmed(text) && IsSingleGroup(text)
    ensures r == Parse(w, text)
    decreases |text|, 0
  {
    StripTrimmed(text);
    var inner := Strip(text[1..|text| - 1]);
    var innerOps := TopLevelOps(w, inner);
    ScanIsRead(w, inner, 0, "", 0);
    if innerOps != [] {
      r := ParseBody(w, inner);
    } else {
      r := Some(Cap(inner));
    }
  }

  method ParseBody(w: BoolOp -> string, raw: string) returns (r: Option<Node>)
    requires IsSpelling(w)
    ensures r == Parse(w, raw)
    decreases |raw|
  {
    var text := Strip(raw);
    ParseStrip(w, raw);
    if text == "" { return None; }
    var single := SingleGroup(text);
    if single {
      r := ParseGroup(w, text);
      return;
    }
    var ops := TopLevelOps(w, text);
    ScanIsRead(w, text, 0, "", 0);
    if ops == [] { return Some(Cap(text)); }
    r := ParseCompound(w, text, ops);
  }

  lemma RpmSpelling()
    ensures IsSpelling(RpmWord)
  {
    forall a, b | RpmWord(a) == RpmWord(b) ensures a == b {
      assert RpmWord(a)[0] == RpmWord(b)[0] && |RpmWord(a)| == |RpmWord(b)|;
      assert |RpmWord(a)| > 1 ==> RpmWord(a)[1] == RpmWord(b)[1];
    }
  }

  method ParseDependency(capability: string) returns (r: Option<Node>)
    ensures r == ParseBoolean(RpmWord, capability)
  {
    RpmSpelling();
    var text := Strip(capability);
    var single := SingleGroup(text);
    if !single { return None; }
    r := ParseBody(RpmWord, Strip(text[1..|text| - 1]));
  }
}
