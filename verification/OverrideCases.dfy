/** An override keyed on an expression is taken as its answer, whatever the package provides. */
module OverrideCases {
  import opened Options
  import opened TextOrder
  import opened Requirement
  import opened Provider
  import opened BooleanScan
  import opened BooleanDeps
  import opened BooleanRoundTrip
  import opened BooleanWords
  import opened ClosureRules
  import opened ClosureInvariant
  import opened ClosureFixpoint
  import opened ClosureRun
  import opened ClosureMeaning
  import opened RuntimeClosure
  import opened RpmClosure
  import opened RpmCases

  /** `(c or b)`, `(c with b)` or `(c without b)` */
  function Pair(op: BoolOp, c: string, b: string): Node {
    if op.Without? then Minus(Cap(c), Cap(b)) else Chain(op, [Cap(c), Cap(b)])
  }

  /** `a` and `e` provide `c`, `b` only itself, and `d` is the answer to the expression. */
  function AnswerIndex(a: string, b: string, c: string, d: string, e: string, y: string, text: string): Index {
    Index(map[a := [a], b := [b], c := [a, e], d := [d], e := [e], y := [y]], map[], map[text := d])
  }

  // ── Reading ──────────────────────────────────────────────────────────

  lemma PairSpelled(op: BoolOp, c: string, b: string)
    ensures Unparse(RpmWord, Pair(op, c, b)) == "(" + c + (" " + RpmWord(op) + " ") + b + ")"
  {
    var n := Pair(op, c, b);
    assert Unparse(RpmWord, Cap(c)) == c && Unparse(RpmWord, Cap(b)) == b;
    if op.Without? {
      assert Body(RpmWord, n) == c + (" " + RpmWord(op) + " ") + b;
    } else {
      JoinTwo(Cap(c), Cap(b), BooleanScan.Token(RpmWord, op));
      assert Body(RpmWord, n) == c + (" " + RpmWord(op) + " ") + b;
    }
    assert "(" + (c + (" " + RpmWord(op) + " ") + b) + ")" == "(" + c + (" " + RpmWord(op) + " ") + b + ")";
  }

  lemma PairIsRead(op: BoolOp, c: string, b: string, text: string)
    requires (op.Or? || op.With? || op.Without?) && PlainCap(RpmWord, c, false) && PlainCap(RpmWord, b, true)
    requires text == Unparse(RpmWord, Pair(op, c, b))
    ensures IsRichDep(text) && StripVersion(text) == text && ParseBoolean(RpmWord, text) == Some(Pair(op, c, b))
  {
    var n := Pair(op, c, b);
    assert OperandOk(RpmWord, Cap(c), false) && OperandOk(RpmWord, Cap(b), true);
    RpmRoundTripIff(n);
    GroupedIsRich(n, text);
  }

  // ── What it comes to ─────────────────────────────────────────────────

  /** Nothing provides both names, more than one package provides the first and not the second, and the text has an answer. */
  ghost predicate Answerable(r: Rules, op: BoolOp, c: string, b: string, d: string) {
    && (op.Or? || op.With? || op.Without?) && c != b && r.strip(c) == c && r.strip(b) == b
    && r.common([c, b]) == [] && |r.without(c, b)| > 1
    && r.show(Pair(op, c, b)) in r.overrides && r.overrides[r.show(Pair(op, c, b))] == d
  }

  lemma AnswerIsTaken(r: Rules, op: BoolOp, c: string, b: string, d: string)
    requires Answerable(r, op, c, b, d)
    ensures May(r, Pair(op, c, b)) == {Take(d)} && UnlessFree(Pair(op, c, b))
  {
    var n := Pair(op, c, b);
    LeafNamesStep(r, Cap(b), []);
    LeafNamesStep(r, Cap(c), [Cap(b)]);
    assert [Cap(b)] + [] == [Cap(b)] && [Cap(c)] + [Cap(b)] == [Cap(c), Cap(b)] && [c] + ([b] + []) == [c, b];
    if !op.Without? {
      assert LeafNames(r, n) == Some([c, b]);
      assert [c, b][0] == c && [c, b][1] == b && !AllSame([c, b]);
    }
  }

  /** It is not answered, and does not hold, where nothing provides either name. */
  lemma AnswerDoesNotFit(r: Rules, op: BoolOp, c: string, b: string, d: string, s: set<string>)
    requires Answerable(r, op, c, b, d) && c !in r.overrides && b !in r.overrides
    requires !Provided(r, c, s) && !Provided(r, b, s)
    ensures !Holds(r, Pair(op, c, b), s)
    ensures forall who :: d !in s ==> !Answered(r, Pair(op, c, b), who, s, [])
  {
    var n := Pair(op, c, b);
    AnswerIsTaken(r, op, c, b, d);
    assert forall p :: p in s ==> !OneProvides(r, Cap(c), p) && !OneProvides(r, Cap(b), p);
    assert !Holds(r, Cap(c), s) && !Holds(r, Cap(b), s);
    if !op.Without? {
      assert n.children[0] == Cap(c) && n.children[1] == Cap(b);
      NotThere(r, c, s);
      NotThere(r, b, s);
      assert !Satisfied(r, Cap(c), s) && !Satisfied(r, Cap(b), s);
      assert Positive(Cap(c)) && Positive(Cap(b)) && Positive(n);
    }
    assert Comes(r, n) in May(r, n);
  }

  lemma NotThere(r: Rules, name: string, s: set<string>)
    requires name !in r.overrides && !Provided(r, name, s)
    ensures !Present(r, name, s)
  {
    assert forall i :: 0 <= i < |r.providers(name)| ==> r.providers(name)[i] in r.providers(name);
  }

  // ── A run in which one requirement comes to one package ──────────────

  /** Only `y` requires anything, which comes to `d` and is not answered by `y` alone. */
  ghost predicate OneRequired(r: Rules, y: string, text: string, d: string) {
    && (forall p :: Needs(r, p) == if p == y then [text] else [])
    && MayNeed(r, text, false) == {Take(d)} && !NeedAnswered(r, text, false, y, {y}, [])
  }

  lemma OneAnswered(r: Rules, y: string, text: string, d: string, seen: set<string>, problems: seq<Problem>)
    requires OneRequired(r, y, text, d) && Ran(r, [y], [], seen, problems)
    ensures seen == {y, d} && problems == []
  {
    OneQuiet(r, y, text, d, seen, problems);
    OneReached(r, y, text, d, seen, problems);
    assert Needs(r, y)[0] == text && NeedAnswered(r, text, false, y, seen, problems);
  }

  lemma OneVoice(r: Rules, sure: set<string>, y: string, text: string, d: string, seen: set<string>)
    requires OneRequired(r, y, text, d)
    ensures forall o, who :: Voiced(r, sure, [], seen, o, who) ==> o == Take(d)
  {
    forall o, who | Voiced(r, sure, [], seen, o, who) ensures o == Take(d) {
      OnlyTaken(r, sure, text, d, y, seen, o, who);
    }
  }

  lemma OneQuiet(r: Rules, y: string, text: string, d: string, seen: set<string>, problems: seq<Problem>)
    requires OneRequired(r, y, text, d) && NothingInvented(r, [y], [], seen, problems)
    ensures problems == []
  {
    assert problems == [] || problems[0] in problems;
    OneVoice(r, Inevitable(r, [y], []), y, text, d, seen);
  }

  lemma OneReached(r: Rules, y: string, text: string, d: string, seen: set<string>, problems: seq<Problem>)
    requires OneRequired(r, y, text, d) && Ran(r, [y], [], seen, problems)
    ensures seen == {y} || seen == {y, d}
  {
    OneVoice(r, Inevitable(r, [y], []), y, text, d, seen);
    assert [y][0] in seen;
    forall p | p in seen ensures p == y || p == d {
      assert Wanted(r, [y], [], seen, p);
    }
  }

  // ── In a repository ──────────────────────────────────────────────────

  lemma AnswerIsClean(op: BoolOp, a: string, b: string, c: string, d: string, e: string, y: string, text: string)
    requires Words([a, b, c, d, e, y]) && IsRichDep(text)
    ensures Reliable(AnswerIndex(a, b, c, d, e, y, text))
  {
    var ix, names := AnswerIndex(a, b, c, d, e, y, text), [a, b, c, d, e, y];
    SixWords(a, b, c, d, e, y);
    assert forall k :: k in ix.provided ==> k in names;
    WordsAreReadable(ix, names);
    AnswerIsSelfProvided(a, b, c, d, e, y, text);
  }

  lemma SixWords(a: string, b: string, c: string, d: string, e: string, y: string)
    requires Words([a, b, c, d, e, y])
    ensures a in [a, b, c, d, e, y] && b in [a, b, c, d, e, y] && c in [a, b, c, d, e, y]
    ensures d in [a, b, c, d, e, y] && e in [a, b, c, d, e, y] && y in [a, b, c, d, e, y]
    ensures c != a && c != b && c != d && c != e && c != y && b != a && b != d && b != e && b != y && a != e
    ensures a != d && a != y && e != d && e != y && d != y
  {
    var names := [a, b, c, d, e, y];
    assert names[0] == a && names[1] == b && names[2] == c && names[3] == d && names[4] == e && names[5] == y;
  }

  lemma AnswerIsSelfProvided(a: string, b: string, c: string, d: string, e: string, y: string, text: string)
    requires Words([a, b, c, d, e, y])
    ensures SelfProvided(AnswerIndex(a, b, c, d, e, y, text))
  {
    var ix := AnswerIndex(a, b, c, d, e, y, text);
    SixWords(a, b, c, d, e, y);
    assert Providers(ix, a) == [a] && Providers(ix, b) == [b] && Providers(ix, d) == [d];
    assert Providers(ix, e) == [e] && Providers(ix, y) == [y];
    assert forall k, p :: p in Providers(ix, k) ==> p == a || p == b || p == d || p == e || p == y;
  }

  /** Two providers of the first name, another of the second. */
  lemma AnswerLooksUp(ix: Index, c: string, b: string, a: string, e: string)
    requires a != e && b != a && b != e && Providers(ix, c) == [a, e] && Providers(ix, b) == [b]
    ensures Common(ix, [c, b]) == [] && |Sorted(Except(Providers(ix, c), Providers(ix, b)))| > 1
  {
    assert [a, e][0] == a && [a, e][1] == e;
    CommonOfTwo(ix, c, b);
    WithoutOfTwo(ix, c, b, a, e);
  }

  lemma AnswerInRpm(ix: Index, needs: map<string, seq<string>>, op: BoolOp, c: string, b: string, d: string)
    requires (op.Or? || op.With? || op.Without?) && c != b && StripVersion(c) == c && StripVersion(b) == b
    requires Common(ix, [c, b]) == [] && |Sorted(Except(Providers(ix, c), Providers(ix, b)))| > 1
    requires var text := Unparse(RpmWord, Pair(op, c, b)); text in ix.overrides && ix.overrides[text] == d
    ensures Answerable(RpmRules(ix, needs), op, c, b, d)
  {
  }

  lemma WithoutOfTwo(ix: Index, c: string, b: string, a: string, e: string)
    requires a != e && a in Providers(ix, c) && e in Providers(ix, c) && a !in Providers(ix, b) && e !in Providers(ix, b)
    ensures |Sorted(Except(Providers(ix, c), Providers(ix, b)))| > 1
  {
    TwoAreSorted(Except(Providers(ix, c), Providers(ix, b)), a, e);
  }

  lemma CommonOfTwo(ix: Index, c: string, b: string)
    requires forall p :: p in Providers(ix, c) ==> p !in Providers(ix, b)
    ensures Common(ix, [c, b]) == []
  {
    var common := Common(ix, [c, b]);
    assert [c, b][0] == c && [c, b][1] == b;
    SomeMember(common);
  }

  lemma SomeMember(xs: seq<string>)
    ensures xs != [] ==> exists x :: x in xs
  {
    if xs != [] { assert xs[0] in xs; }
  }

  lemma TwoAreSorted(xs: seq<string>, a: string, e: string)
    requires a in xs && e in xs && a != e
    ensures |Sorted(xs)| > 1
  {
    var ys := Sorted(xs);
    assert a in ys && e in ys;
    var i :| 0 <= i < |ys| && ys[i] == a;
    var j :| 0 <= j < |ys| && ys[j] == e;
  }

  /** The solve ends clean with `y` and the answer, and the requirement does not hold. */
  ghost predicate AnsweredCleanly(ix: Index, needs: map<string, seq<string>>, text: string, d: string, y: string) {
    SolvesCleanly(ix, needs, [y], {y, d}) && !NeedHolds(ix, RpmRules(ix, needs), text, false, {y, d})
  }

  lemma AnswerRun(ix: Index, needs: map<string, seq<string>>, op: BoolOp, c: string, b: string, d: string, y: string,
                  text: string)
    requires IsRichDep(text) && StripVersion(text) == text && ParseBoolean(RpmWord, text) == Some(Pair(op, c, b))
    requires Answerable(RpmRules(ix, needs), op, c, b, d) && c !in ix.overrides && b !in ix.overrides
    requires needs == map[y := [text]] && d != y
    requires y !in Providers(ix, c) && d !in Providers(ix, c) && y !in Providers(ix, b) && d !in Providers(ix, b)
    ensures AnsweredCleanly(ix, needs, text, d, y)
  {
    AnswerRequired(ix, needs, op, c, b, d, y, text);
    AnswerSolves(ix, needs, y, text, d);
    AnswerMissing(ix, needs, op, c, b, d, {y, d}, text);
  }

  lemma AnswerSolves(ix: Index, needs: map<string, seq<string>>, y: string, text: string, d: string)
    requires OneRequired(RpmRules(ix, needs), y, text, d)
    ensures SolvesCleanly(ix, needs, [y], {y, d})
  {
    forall seen, problems | Solved(ix, needs, [y], [], seen, problems) ensures seen == {y, d} && problems == [] {
      OneAnswered(RpmRules(ix, needs), y, text, d, seen, problems);
    }
  }

  lemma AnswerMissing(ix: Index, needs: map<string, seq<string>>, op: BoolOp, c: string, b: string, d: string,
                      s: set<string>,
                      text: string)
    requires IsRichDep(text) && StripVersion(text) == text && ParseBoolean(RpmWord, text) == Some(Pair(op, c, b))
    requires Answerable(RpmRules(ix, needs), op, c, b, d) && c !in ix.overrides && b !in ix.overrides
    requires forall p :: p in s ==> p !in Providers(ix, c) && p !in Providers(ix, b)
    ensures !NeedHolds(ix, RpmRules(ix, needs), text, false, s)
  {
    WishIsUnderstood(ix, needs, Pair(op, c, b), text);
    AnswerUnmet(ix, RpmRules(ix, needs), op, c, b, d, s, text);
  }

  lemma AnswerRequired(ix: Index, needs: map<string, seq<string>>, op: BoolOp, c: string, b: string, d: string,
                       y: string,
                       text: string)
    requires IsRichDep(text) && StripVersion(text) == text && ParseBoolean(RpmWord, text) == Some(Pair(op, c, b))
    requires Answerable(RpmRules(ix, needs), op, c, b, d) && c !in ix.overrides && b !in ix.overrides
    requires needs == map[y := [text]] && d != y && y !in Providers(ix, c) && y !in Providers(ix, b)
    ensures OneRequired(RpmRules(ix, needs), y, text, d)
  {
    NeedsOfOne(ix, y, [text]);
    WishIsUnderstood(ix, needs, Pair(op, c, b), text);
    AnswerAsks(RpmRules(ix, needs), op, c, b, d, y, text);
  }

  lemma AnswerUnmet(ix: Index, r: Rules, op: BoolOp, c: string, b: string, d: string, s: set<string>, text: string)
    requires IsRichDep(text) && StripVersion(text) == text && r.read(text) == Some(Pair(op, c, b))
    requires Answerable(r, op, c, b, d) && c !in r.overrides && b !in r.overrides
    requires !Provided(r, c, s) && !Provided(r, b, s)
    ensures !NeedHolds(ix, r, text, false, s)
  {
    AnswerDoesNotFit(r, op, c, b, d, s);
    WishHolds(ix, r, Pair(op, c, b), text, s);
  }

  lemma AnswerAsks(r: Rules, op: BoolOp, c: string, b: string, d: string, y: string, text: string)
    requires Answerable(r, op, c, b, d) && c !in r.overrides && b !in r.overrides && d != y
    requires y !in r.providers(c) && y !in r.providers(b)
    requires r.strip(text) == text && r.rich(text) && r.read(text) == Some(Pair(op, c, b))
    requires forall p :: Needs(r, p) == if p == y then [text] else []
    ensures OneRequired(r, y, text, d)
  {
    AnswerIsTaken(r, op, c, b, d);
    AnswerDoesNotFit(r, op, c, b, d, {y});
  }

  /**
   * `y` requires `(c or b)`, `(c with b)` or `(c without b)`, and the override
   * of that text answers with `d`, which provides neither: validation passes
   * it, the solve is clean, and the requirement does not hold.
   */
  lemma AnswerNeedNotFit(op: BoolOp, a: string, b: string, c: string, d: string, e: string, y: string, text: string)
    requires (op.Or? || op.With? || op.Without?) && Words([a, b, c, d, e, y])
    requires PlainCap(RpmWord, c, false) && PlainCap(RpmWord, b, true) && text == "(" + c + (" " + RpmWord(op) + " ") + b + ")"
    ensures Reliable(AnswerIndex(a, b, c, d, e, y, text))
    ensures AnsweredCleanly(AnswerIndex(a, b, c, d, e, y, text), map[y := [text]], text, d, y)
  {
    PairSpelled(op, c, b);
    PairIsRead(op, c, b, text);
    AnswerIsClean(op, a, b, c, d, e, y, text);
    AnswerIndexed(a, b, c, d, e, y, text);
    AnswerCommon(a, b, c, d, e, y, text);
    AnswerFrom(AnswerIndex(a, b, c, d, e, y, text), map[y := [text]], op, c, b, d, y, text);
  }

  lemma AnswerFrom(ix: Index, needs: map<string, seq<string>>, op: BoolOp, c: string, b: string, d: string, y: string,
                   text: string)
    requires (op.Or? || op.With? || op.Without?) && text == Unparse(RpmWord, Pair(op, c, b)) && needs == map[y := [text]]
    requires IsRichDep(text) && StripVersion(text) == text && ParseBoolean(RpmWord, text) == Some(Pair(op, c, b))
    requires AnswerFacts(ix, c, b, d, y, text)
    requires Common(ix, [c, b]) == [] && |Sorted(Except(Providers(ix, c), Providers(ix, b)))| > 1
    ensures AnsweredCleanly(ix, needs, text, d, y)
  {
    AnswerInRpm(ix, needs, op, c, b, d);
    AnswerRun(ix, needs, op, c, b, d, y, text);
  }

  predicate AnswerFacts(ix: Index, c: string, b: string, d: string, y: string, text: string) {
    && StripVersion(c) == c && StripVersion(b) == b && c != b && d != y
    && text in ix.overrides && ix.overrides[text] == d && c !in ix.overrides && b !in ix.overrides
    && y !in Providers(ix, c) && d !in Providers(ix, c) && y !in Providers(ix, b) && d !in Providers(ix, b)
  }

  lemma AnswerIndexed(a: string, b: string, c: string, d: string, e: string, y: string, text: string)
    requires Words([a, b, c, d, e, y]) && IsRichDep(text)
    ensures AnswerFacts(AnswerIndex(a, b, c, d, e, y, text), c, b, d, y, text)
  {
    SixWords(a, b, c, d, e, y);
    WordsAreBare([a, b, c, d, e, y]);
    assert BareName(c) && BareName(b);
  }

  lemma AnswerCommon(a: string, b: string, c: string, d: string, e: string, y: string, text: string)
    requires Words([a, b, c, d, e, y])
    ensures var ix := AnswerIndex(a, b, c, d, e, y, text);
      Common(ix, [c, b]) == [] && |Sorted(Except(Providers(ix, c), Providers(ix, b)))| > 1
  {
    SixWords(a, b, c, d, e, y);
    AnswerLooksUp(AnswerIndex(a, b, c, d, e, y, text), c, b, a, e);
  }

  /** Such words: single letters. */
  lemma LettersNeedNotFit(op: BoolOp, a: string, b: string, c: string, d: string, e: string, y: string, text: string)
    requires a == "a" && b == "b" && c == "c" && d == "d" && e == "e" && y == "y"
    requires (op.Or? && text == "(c or b)") || (op.With? && text == "(c with b)") || (op.Without? && text == "(c without b)")
    ensures Reliable(AnswerIndex(a, b, c, d, e, y, text))
    ensures AnsweredCleanly(AnswerIndex(a, b, c, d, e, y, text), map[y := [text]], text, d, y)
  {
    var names := [a, b, c, d, e, y];
    LettersAreWords(names);
    assert names[1] == b && names[2] == c;
    TextOf(op, c, b, text);
    AnswerNeedNotFit(op, a, b, c, d, e, y, text);
  }

  lemma TextOf(op: BoolOp, c: string, b: string, text: string)
    requires c == "c" && b == "b"
    requires (op.Or? && text == "(c or b)") || (op.With? && text == "(c with b)") || (op.Without? && text == "(c without b)")
    ensures text == "(" + c + (" " + RpmWord(op) + " ") + b + ")"
  {
  }
}
