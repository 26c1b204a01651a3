/** rpm's boolean dependencies as they are written: which words read as which expression. */
module BooleanWords {
  import opened Options
  import opened BooleanScan
  import opened BooleanDeps
  import opened BooleanRoundTrip

  /** Three capabilities that can stand anywhere in an expression. */
  ghost predicate Operands3(a: string, b: string, c: string) {
    && PlainCap(RpmWord, a, false) && PlainCap(RpmWord, b, false) && PlainCap(RpmWord, b, true)
    && PlainCap(RpmWord, c, false) && PlainCap(RpmWord, c, true)
  }

  lemma ReadsBack(n: Node, text: string)
    requires Printable(RpmWord, n) && text == Unparse(RpmWord, n)
    ensures ParseBoolean(RpmWord, text) == Some(n)
  {
    RpmRoundTripIff(n);
  }

  lemma JoinTwo(m: Node, n: Node, sep: string)
    ensures JoinNodes(RpmWord, [m, n], sep) == Unparse(RpmWord, m) + sep + Unparse(RpmWord, n)
  {
    assert [m, n][1..] == [n];
    assert JoinNodes(RpmWord, [n], sep) == Unparse(RpmWord, n);
  }

  lemma ChainSpelled(op: BoolOp, a: string, b: string, word: string)
    requires RpmWord(op) == word
    ensures Unparse(RpmWord, Chain(op, [Cap(a), Cap(b)])) == "(" + (a + (" " + word + " ") + b) + ")"
  {
    JoinTwo(Cap(a), Cap(b), Token(RpmWord, op));
  }

  /** `and`: each by itself */
  lemma AndReads(a: string, b: string)
    requires PlainCap(RpmWord, a, false) && PlainCap(RpmWord, b, true)
    ensures ParseBoolean(RpmWord, "(" + (a + " and " + b) + ")") == Some(Chain(And, [Cap(a), Cap(b)]))
  {
    ChainReads(And, a, b, "and", " and ");
  }

  /** `or`: one of them */
  lemma OrReads(a: string, b: string)
    requires PlainCap(RpmWord, a, false) && PlainCap(RpmWord, b, true)
    ensures ParseBoolean(RpmWord, "(" + (a + " or " + b) + ")") == Some(Chain(Or, [Cap(a), Cap(b)]))
  {
    ChainReads(Or, a, b, "or", " or ");
  }

  /** `with`: both by one package */
  lemma WithReads(a: string, b: string)
    requires PlainCap(RpmWord, a, false) && PlainCap(RpmWord, b, true)
    ensures ParseBoolean(RpmWord, "(" + (a + " with " + b) + ")") == Some(Chain(With, [Cap(a), Cap(b)]))
  {
    ChainReads(With, a, b, "with", " with ");
  }

  lemma ChainReads(op: BoolOp, a: string, b: string, word: string, sep: string)
    requires (op.And? || op.Or? || op.With?) && RpmWord(op) == word && sep == " " + word + " "
    requires PlainCap(RpmWord, a, false) && PlainCap(RpmWord, b, true)
    ensures ParseBoolean(RpmWord, "(" + (a + sep + b) + ")") == Some(Chain(op, [Cap(a), Cap(b)]))
  {
    var n := Chain(op, [Cap(a), Cap(b)]);
    ChainSpelled(op, a, b, word);
    assert OperandOk(RpmWord, Cap(a), false) && OperandOk(RpmWord, Cap(b), true);
    ReadsBack(n, "(" + (a + sep + b) + ")");
  }

  /** `without`: the first and not the second. */
  lemma WithoutReads(a: string, b: string)
    requires PlainCap(RpmWord, a, false) && PlainCap(RpmWord, b, true)
    ensures ParseBoolean(RpmWord, "(" + (a + " without " + b) + ")") == Some(Minus(Cap(a), Cap(b)))
  {
    var n := Minus(Cap(a), Cap(b));
    assert RpmWord(Without) == "without";
    assert OperandOk(RpmWord, Cap(a), false) && OperandOk(RpmWord, Cap(b), true);
    assert Body(RpmWord, n) == a + (" " + "without" + " ") + b;
    ReadsBack(n, "(" + (a + " without " + b) + ")");
  }

  /** `if`: what is wanted, then the condition */
  lemma IfReads(a: string, b: string)
    requires PlainCap(RpmWord, a, false) && PlainCap(RpmWord, b, true)
    ensures ParseBoolean(RpmWord, "(" + (a + " if " + b) + ")") == Some(Conditional(If, Cap(a), Cap(b), None))
  {
    ConditionalReads(If, a, b, "if", " if ");
  }

  /** `unless`: what is wanted, then what excuses it */
  lemma UnlessReads(a: string, b: string)
    requires PlainCap(RpmWord, a, false) && PlainCap(RpmWord, b, true)
    ensures ParseBoolean(RpmWord, "(" + (a + " unless " + b) + ")") == Some(Conditional(Unless, Cap(a), Cap(b), None))
  {
    ConditionalReads(Unless, a, b, "unless", " unless ");
  }

  lemma ConditionalReads(op: BoolOp, a: string, b: string, word: string, sep: string)
    requires (op.If? || op.Unless?) && RpmWord(op) == word && sep == " " + word + " "
    requires PlainCap(RpmWord, a, false) && PlainCap(RpmWord, b, true)
    ensures ParseBoolean(RpmWord, "(" + (a + sep + b) + ")") == Some(Conditional(op, Cap(a), Cap(b), None))
  {
    var n := Conditional(op, Cap(a), Cap(b), None);
    assert OperandOk(RpmWord, Cap(a), false) && OperandOk(RpmWord, Cap(b), true);
    assert Body(RpmWord, n) == a + sep + b + "";
    assert a + sep + b + "" == a + sep + b;
    ReadsBack(n, "(" + (a + sep + b) + ")");
  }

  /** With `else`: what is wanted otherwise comes last */
  lemma IfElseReads(a: string, b: string, c: string)
    requires Operands3(a, b, c)
    ensures ParseBoolean(RpmWord, "(" + (a + " if " + b + " else " + c) + ")") == Some(Conditional(If, Cap(a), Cap(b), Some(Cap(c))))
  {
    ElseReadsFor(If, a, b, c, "if", " if ", " else ");
  }

  /** And so with `unless` */
  lemma UnlessElseReads(a: string, b: string, c: string)
    requires Operands3(a, b, c)
    ensures ParseBoolean(RpmWord, "(" + (a + " unless " + b + " else " + c) + ")") == Some(Conditional(Unless, Cap(a), Cap(b), Some(Cap(c))))
  {
    ElseReadsFor(Unless, a, b, c, "unless", " unless ", " else ");
  }

  lemma ElseReadsFor(op: BoolOp, a: string, b: string, c: string, word: string, sep: string, otherwise: string)
    requires (op.If? || op.Unless?) && RpmWord(op) == word && sep == " " + word + " " && otherwise == " else "
    requires Operands3(a, b, c)
    ensures ParseBoolean(RpmWord, "(" + (a + sep + b + otherwise + c) + ")")
         == Some(Conditional(op, Cap(a), Cap(b), Some(Cap(c))))
  {
    var n := Conditional(op, Cap(a), Cap(b), Some(Cap(c)));
    assert RpmWord(Else) == "else" && Token(RpmWord, Else) == otherwise;
    assert OperandOk(RpmWord, Cap(a), false) && OperandOk(RpmWord, Cap(b), false) && OperandOk(RpmWord, Cap(c), true);
    assert Body(RpmWord, n) == a + sep + b + (otherwise + c);
    assert a + sep + b + (otherwise + c) == a + sep + b + otherwise + c;
    ReadsBack(n, "(" + (a + sep + b + otherwise + c) + ")");
  }

  /** Single letters are such capabilities. */
  lemma LettersStand(a: string, b: string, c: string)
    requires a == "a" && b == "b" && c == "c"
    ensures Operands3(a, b, c)
  {
    Letter(a);
    Letter(b);
    Letter(c);
  }
}
