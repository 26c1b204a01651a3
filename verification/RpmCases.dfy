/** Inputs on which a solve falls short of what its documentation says or its name promises, worked through to the end. */
module RpmCases {
  import opened Options
  import opened PyText
  import opened RpmVersion
  import opened Requirement
  import opened Provider
  import opened BooleanScan
  import opened BooleanDeps
  import opened BooleanRoundTrip
  import opened BooleanWords
  import opened ClosureRules
  import opened ClosureFixpoint
  import opened ClosureBranches
  import opened ClosureRun
  import opened ClosureMeaning
  import opened RuntimeClosure
  import opened Packages
  import opened Constrained
  import opened RpmClosure
  import opened VersionRanges

  /** Every solve from the roots ends with just these packages and nothing to report. */
  ghost predicate SolvesCleanly(ix: Index, needs: map<string, seq<string>>, roots: seq<string>, s: set<string>) {
    forall seen, problems :: Solved(ix, needs, roots, [], seen, problems) ==> seen == s && problems == []
  }

  /** Different words, none of which begins as an expression does. */
  predicate Words(names: seq<string>) {
    && (forall i :: 0 <= i < |names| ==> NoBlank(names[i]) && names[i] != "" && names[i][0] != '(')
    && (forall i, j :: 0 <= i < j < |names| ==> names[i] != names[j])
  }

  // ── A condition an override hides ────────────────────────────────────

  /** `b` is provided by `x` and by `y`, and overridden to `x`; every other name only by itself. */
  function OverriddenIndex(a: string, b: string, x: string, y: string): Index {
    Index(map[a := [a], b := [x, y], x := [x], y := [y]], map[], map[b := x])
  }

  function Wish(a: string, b: string): Node {
    Conditional(If, Cap(a), Cap(b), None)
  }

  lemma OverriddenIsClean(a: string, b: string, x: string, y: string)
    requires Words([a, b, x, y])
    ensures Reliable(OverriddenIndex(a, b, x, y))
  {
    var ix, names := OverriddenIndex(a, b, x, y), [a, b, x, y];
    assert names[0] == a && names[1] == b && names[2] == x && names[3] == y;
    WordsAreReadable(ix, names);
    OverriddenIsSelfProvided(a, b, x, y);
    assert forall k :: k in ix.overrides ==> k == b;
    assert Providers(ix, b)[0] == x;
  }

  lemma OverriddenIsSelfProvided(a: string, b: string, x: string, y: string)
    requires a != b && a != x && a != y && b != x && b != y && x != y
    ensures SelfProvided(OverriddenIndex(a, b, x, y))
  {
    var ix := OverriddenIndex(a, b, x, y);
    assert Providers(ix, a) == [a] && Providers(ix, x) == [x] && Providers(ix, y) == [y];
    assert forall k, p :: p in Providers(ix, k) ==> p == a || p == x || p == y;
  }

  /** An index over words alone, but for overrides of expressions. */
  lemma WordsAreReadable(ix: Index, names: seq<string>)
    requires Words(names) && forall k :: k in ix.provided ==> k in names
    requires forall k, p :: k in ix.provided && p in ix.provided[k] ==> p in names
    requires forall k :: k in ix.overrides ==> IsRichDep(k) || k in names
    ensures ReadableKeys(ix) && NoneRich(ix)
  {
    WordsAreBare(names);
    forall k, p | p in Providers(ix, k) ensures !IsRichDep(p) {
      assert k in ix.provided && p in ix.provided[k];
      assert BareName(p);
    }
  }

  lemma WordsAreBare(names: seq<string>)
    requires Words(names)
    ensures forall n :: n in names ==> BareName(n)
  {
    forall n | n in names ensures BareName(n) {
      var i :| 0 <= i < |names| && names[i] == n;
      WordIsBare(names[i]);
    }
  }

  lemma WordIsBare(b: string)
    requires NoBlank(b) && (b == "" || b[0] != '(')
    ensures BareName(b)
  {
    WordIsName(b);
    assert IsSpace(' ');
    WordHolds(b, " with ");
    assert b == "" || LStrip(b) == b;
  }

  lemma GroupedIsRich(n: Node, text: string)
    requires !n.Cap? && text == Unparse(RpmWord, n)
    ensures IsRichDep(text) && StripVersion(text) == text
  {
    assert text[0] == '(' && text[|text| - 1] == ')';
    StripTrimmed(text);
    assert LStrip(text) == text;
  }

  lemma WishIsRead(a: string, b: string, text: string)
    requires PlainCap(RpmWord, a, false) && PlainCap(RpmWord, b, true)
    requires text == Unparse(RpmWord, Wish(a, b))
    ensures IsRichDep(text) && StripVersion(text) == text && ParseBoolean(RpmWord, text) == Some(Wish(a, b))
  {
    var n := Wish(a, b);
    assert OperandOk(RpmWord, Cap(a), false) && OperandOk(RpmWord, Cap(b), true);
    RpmRoundTripIff(n);
    GroupedIsRich(n, text);
  }

  /** What the one requirement comes to: `a`, which a closure that is only `y` neither demands nor has. */
  lemma WishAlone(r: Rules, a: string, b: string, y: string)
    requires r.strip(a) == a && r.strip(b) == b && r.resolve(a) == Chosen(a) && r.providers(a) == [a] && a != y
    requires b in r.overrides && r.overrides[b] != y && y in r.providers(b)
    ensures var n := Wish(a, b); May(r, n) == {Take(a)} && Monotone(n) && Within(r, n, {y}) && !Holds(r, n, {y})
  {
    assert FixedOutcome(r, Cap(a)) == Take(a);
    assert !Satisfied(r, Cap(b), {y});
    assert Provided(r, b, {y}) && True(r, Cap(b), {y});
    assert !Provided(r, a, {y}) && !Holds(r, Cap(a), {y});
  }

  lemma WishInRpm(ix: Index, needs: map<string, seq<string>>, a: string, b: string)
    requires NoBlank(a) && NoBlank(b) && a != "" && a[0] != '(' && a !in ix.overrides && Providers(ix, a) == [a]
    ensures var r := RpmRules(ix, needs);
      && r.strip(a) == a && r.strip(b) == b && r.resolve(a) == Chosen(a)
      && r.providers(a) == [a] && r.providers(b) == Providers(ix, b) && r.overrides == ix.overrides
  {
    WordIsName(a);
    WordIsName(b);
    OnlyProvider(ix, a);
  }

  lemma OnlyProvider(ix: Index, a: string)
    requires NoBlank(a) && a != "" && a[0] != '(' && a !in ix.overrides && Providers(ix, a) == [a]
    ensures Resolve(ix, a) == Chosen(a)
  {
    WordIsName(a);
    assert a in Providers(ix, a);
    var stated := Versions(ix, a, a);
    assert stated != [] ==> SatisfiesConstraint(Some(stated[0]), None, "");
    assert Meets(ix, a, a) && forall p :: Meets(ix, a, p) ==> p == a;
    RefusedExactlyWhen(ix, a);
  }

  /** A solve in which one requirement can come to one package only, and does not. */
  lemma OneWish(r: Rules, y: string, text: string, pkg: string, seen: set<string>, problems: seq<Problem>)
    requires forall p :: Needs(r, p) == if p == y then [text] else []
    requires MayNeed(r, text, false) == {Take(pkg)} && NeedMonotone(r, text) && NeedWithin(r, text, false, {y})
    requires AllMonotone(r, [], seen) ==> LeastClosed(r, [y], [], seen)
    requires NothingDropped(r, [y], [], seen, problems) && NothingInvented(r, [y], [], seen, problems)
    ensures seen == {y} && problems == []
  {
    assert ClosedUnder(r, [y], [], {y});
    assert AllMonotone(r, [], seen);
    assert [y][0] in seen && (problems == [] || problems[0] in problems);
    var sure := Inevitable(r, [y], []);
    forall o, who | Voiced(r, sure, [], seen, o, who) ensures o == Take(pkg) {
      OnlyTaken(r, sure, text, pkg, y, seen, o, who);
    }
  }

  lemma OnlyTaken(r: Rules, sure: set<string>, text: string, pkg: string, y: string, seen: set<string>, o: Outcome,
                  who: string)
    requires forall p :: Needs(r, p) == if p == y then [text] else []
    requires MayNeed(r, text, false) == {Take(pkg)} && Voiced(r, sure, [], seen, o, who)
    ensures o == Take(pkg)
  {
    NeedGrows(r, sure, text, false, seen, seen);
  }

  lemma WishIsUnderstood(ix: Index, needs: map<string, seq<string>>, n: Node, text: string)
    requires IsRichDep(text) && StripVersion(text) == text && ParseBoolean(RpmWord, text) == Some(n)
    ensures var r := RpmRules(ix, needs); r.strip(text) == text && r.rich(text) && r.read(text) == Some(n)
  {
  }

  lemma WishAsks(r: Rules, n: Node, text: string, pkg: string, s: set<string>)
    requires r.strip(text) == text && r.rich(text) && r.read(text) == Some(n)
    requires May(r, n) == {Take(pkg)} && Monotone(n) && Within(r, n, s)
    ensures MayNeed(r, text, false) == {Take(pkg)} && NeedMonotone(r, text) && NeedWithin(r, text, false, s)
  {
  }

  lemma WishHolds(ix: Index, r: Rules, n: Node, text: string, s: set<string>)
    requires IsRichDep(text) && StripVersion(text) == text && r.read(text) == Some(n)
    ensures NeedHolds(ix, r, text, false, s) <==> Holds(r, n, s)
  {
  }

  /** What the requirement asks of a closure that is only `y`, and that it does not hold there. */
  lemma WishNeeds(ix: Index, needs: map<string, seq<string>>, a: string, b: string, y: string, text: string)
    requires IsRichDep(text) && StripVersion(text) == text && ParseBoolean(RpmWord, text) == Some(Wish(a, b))
    requires NoBlank(a) && NoBlank(b) && a != "" && b != "" && a[0] != '(' && b[0] != '(' && a != y
    requires a !in ix.overrides && Providers(ix, a) == [a]
    requires b in ix.overrides && ix.overrides[b] != y && y in Providers(ix, b)
    ensures var r := RpmRules(ix, needs);
      && MayNeed(r, text, false) == {Take(a)} && NeedMonotone(r, text) && NeedWithin(r, text, false, {y})
      && !NeedHolds(ix, r, text, false, {y})
  {
    var r, n := RpmRules(ix, needs), Wish(a, b);
    WishInRpm(ix, needs, a, b);
    WishAlone(r, a, b, y);
    WishIsUnderstood(ix, needs, n, text);
    WishAsks(r, n, text, a, {y});
    WishHolds(ix, r, n, text, {y});
  }

  lemma SolvedGives(ix: Index, needs: map<string, seq<string>>, roots: seq<string>, extra: seq<(string, string)>,
                    seen: set<string>, problems: seq<Problem>)
    requires Solved(ix, needs, roots, extra, seen, problems) && ReadableKeys(ix) && NoneRich(ix)
    ensures var r := RpmRules(ix, needs);
      && (AllMonotone(r, extra, seen) ==> LeastClosed(r, roots, extra, seen))
      && NothingDropped(r, roots, extra, seen, problems) && NothingInvented(r, roots, extra, seen, problems)
  {
  }

  /** All a solve from the one root can give, when only `y` requires anything. */
  lemma WishDropped(ix: Index, needs: map<string, seq<string>>, a: string, b: string, y: string, text: string)
    requires ReadableKeys(ix) && NoneRich(ix) && needs == map[y := [text]]
    requires IsRichDep(text) && StripVersion(text) == text && ParseBoolean(RpmWord, text) == Some(Wish(a, b))
    requires NoBlank(a) && NoBlank(b) && a != "" && b != "" && a[0] != '(' && b[0] != '(' && a != y
    requires a !in ix.overrides && Providers(ix, a) == [a]
    requires b in ix.overrides && ix.overrides[b] != y && y in Providers(ix, b)
    ensures SolvesCleanly(ix, needs, [y], {y}) && !NeedHolds(ix, RpmRules(ix, needs), text, false, {y})
  {
    WishNeeds(ix, needs, a, b, y, text);
    forall seen, problems | Solved(ix, needs, [y], [], seen, problems) ensures seen == {y} && problems == [] {
      SolvedGives(ix, needs, [y], [], seen, problems);
      OneWish(RpmRules(ix, needs), y, text, a, seen, problems);
    }
  }

  lemma WishSpelled(a: string, b: string, text: string)
    requires a == "a" && b == "b" && text == "(a if b)"
    ensures text == Unparse(RpmWord, Wish(a, b))
  {
    var body := Body(RpmWord, Wish(a, b));
    assert BooleanScan.Token(RpmWord, If) == " " + RpmWord(If) + " " == " if ";
    assert Unparse(RpmWord, Cap(a)) == a && Unparse(RpmWord, Cap(b)) == b;
    assert body == a + " if " + b + "";
  }

  lemma OverrideHides(a: string, b: string, x: string, y: string, text: string)
    requires Words([a, b, x, y]) && PlainCap(RpmWord, a, false) && PlainCap(RpmWord, b, true)
    requires text == Unparse(RpmWord, Wish(a, b))
    ensures var ix, needs := OverriddenIndex(a, b, x, y), map[y := [text]];
      && Reliable(ix)
      && SolvesCleanly(ix, needs, [y], {y}) && !NeedHolds(ix, RpmRules(ix, needs), text, false, {y})
  {
    WishIsRead(a, b, text);
    OverriddenIsClean(a, b, x, y);
    OverriddenLooksUp(a, b, x, y);
    WishDropped(OverriddenIndex(a, b, x, y), map[y := [text]], a, b, y, text);
  }

  lemma LetterIsWord(c: string)
    requires |c| == 1 && 'a' <= c[0] <= 'z'
    ensures NoBlank(c) && c[0] != '(' && PlainCap(RpmWord, c, true) && PlainCap(RpmWord, c, false)
  {
    Letter(c);
  }

  /**
   * `y` requires `(a if b)` and provides `b` itself, but `b` is overridden to
   * `x`: the solve is clean, `b` is there, `a` is not.
   */
  lemma OverrideHidesCondition(a: string, b: string, x: string, y: string, text: string)
    requires a == "a" && b == "b" && x == "x" && y == "y" && text == "(a if b)"
    ensures var ix, needs := OverriddenIndex(a, b, x, y), map[y := [text]];
      && Reliable(ix)
      && SolvesCleanly(ix, needs, [y], {y}) && !NeedHolds(ix, RpmRules(ix, needs), text, false, {y})
  {
    LetterIsWord(a);
    LetterIsWord(b);
    LetterIsWord(x);
    LetterIsWord(y);
    WishSpelled(a, b, text);
    OverrideHides(a, b, x, y, text);
  }

  lemma OverriddenLooksUp(a: string, b: string, x: string, y: string)
    requires Words([a, b, x, y])
    ensures a != y && NoBlank(a) && a != "" && a[0] != '(' && NoBlank(b) && b != "" && b[0] != '('
    ensures var ix := OverriddenIndex(a, b, x, y);
      && a !in ix.overrides && Providers(ix, a) == [a]
      && b in ix.overrides && ix.overrides[b] != y && y in Providers(ix, b)
  {
    var names := [a, b, x, y];
    assert names[0] == a && names[1] == b && names[2] == x && names[3] == y && [x, y][1] == y;
  }

  // ── A choice settled by what does not settle it ──────────────────────

  /** Only `y` requires anything: what comes to `d`, and a choice that `y` and `d` are taken to settle. */
  ghost predicate TwoRequired(r: Rules, y: string, d: string, first: string, second: string, e: string,
                              alternatives: seq<string>)
  {
    && (forall p :: Needs(r, p) == if p == y then [first, second] else []) && r.overrides == map[]
    && MayNeed(r, first, false) == {Take(d)} && MayNeed(r, second, false) == {Ask(e, alternatives)}
    && !r.rich(r.strip(first)) && NeedUnlessFree(r, second) && AnyPresent(r, alternatives, {y, d})
  }

  lemma TwoWishes(r: Rules, y: string, d: string, first: string, second: string, e: string, alternatives: seq<string>,
                  seen: set<string>, problems: seq<Problem>)
    requires TwoRequired(r, y, d, first, second, e, alternatives)
    requires (forall p :: p in seen ==> Wanted(r, [y], [], seen, p)) && NothingDropped(r, [y], [], seen, problems)
    requires NothingInvented(r, [y], [], seen, problems) && (AllUnlessFree(r, [], seen) ==> ReportsStand(r, seen, problems))
    ensures seen == {y, d} && problems == []
  {
    assert problems == [] || problems[0] in problems;
    TwoSeen(r, y, d, first, second, e, alternatives, seen, problems);
    assert AllUnlessFree(r, [], seen);
    TwoVoices(r, Inevitable(r, [y], []), y, d, first, second, e, alternatives, seen);
  }

  lemma TwoVoices(r: Rules, sure: set<string>, y: string, d: string, first: string, second: string, e: string,
                  alternatives: seq<string>,
                  seen: set<string>)
    requires TwoRequired(r, y, d, first, second, e, alternatives)
    ensures forall o, who :: Voiced(r, sure, [], seen, o, who) ==> o == Take(d) || o == Ask(e, alternatives)
  {
    forall o, who | Voiced(r, sure, [], seen, o, who) ensures o == Take(d) || o == Ask(e, alternatives) {
      VoicedByTwo(r, sure, y, d, first, second, e, alternatives, seen, o, who);
    }
  }

  lemma TwoSeen(r: Rules, y: string, d: string, first: string, second: string, e: string, alternatives: seq<string>,
                seen: set<string>, problems: seq<Problem>)
    requires TwoRequired(r, y, d, first, second, e, alternatives)
    requires (forall p :: p in seen ==> Wanted(r, [y], [], seen, p)) && NothingDropped(r, [y], [], seen, problems)
    ensures seen == {y, d}
  {
    assert [y][0] in seen && Needs(r, y)[0] == first;
    assert NeedAnswered(r, first, false, y, seen, problems);
    PlainIsTaken(r, first, y, d, seen, problems);
    TwoVoices(r, Inevitable(r, [y], []), y, d, first, second, e, alternatives, seen);
  }

  lemma PlainIsTaken(r: Rules, cap: string, y: string, d: string, seen: set<string>, problems: seq<Problem>)
    requires MayNeed(r, cap, false) == {Take(d)} && !r.rich(r.strip(cap)) && NeedAnswered(r, cap, false, y, seen, problems)
    ensures d in seen
  {
    assert PlainOutcome(r, cap, false) in MayNeed(r, cap, false);
  }

  lemma VoicedByTwo(r: Rules, sure: set<string>, y: string, d: string, first: string, second: string, e: string,
                    alternatives: seq<string>,
                    seen: set<string>, o: Outcome, who: string)
    requires forall p :: Needs(r, p) == if p == y then [first, second] else []
    requires MayNeed(r, first, false) == {Take(d)} && MayNeed(r, second, false) == {Ask(e, alternatives)}
    requires Voiced(r, sure, [], seen, o, who)
    ensures o == Take(d) || o == Ask(e, alternatives)
  {
    var i :| 0 <= i < |Needs(r, who)| && o in FiredNeed(r, sure, Needs(r, who)[i], false, seen);
    assert i == 0 || i == 1;
    NeedGrows(r, sure, Needs(r, who)[i], false, seen, seen);
  }

  lemma SolvedGivesAll(ix: Index, needs: map<string, seq<string>>, roots: seq<string>, seen: set<string>,
                       problems: seq<Problem>)
    requires Solved(ix, needs, roots, [], seen, problems)
    ensures var r := RpmRules(ix, needs);
      && (forall p :: p in seen ==> Wanted(r, roots, [], seen, p))
      && NothingDropped(r, roots, [], seen, problems) && NothingInvented(r, roots, [], seen, problems)
      && (AllUnlessFree(r, [], seen) ==> ReportsStand(r, seen, problems))
  {
  }

  lemma TwoSolved(ix: Index, needs: map<string, seq<string>>, y: string, d: string, first: string, second: string,
                  e: string,
                  alternatives: seq<string>, seen: set<string>, problems: seq<Problem>)
    requires TwoRequired(RpmRules(ix, needs), y, d, first, second, e, alternatives)
    requires Solved(ix, needs, [y], [], seen, problems)
    ensures seen == {y, d} && problems == []
  {
    SolvedGivesAll(ix, needs, [y], seen, problems);
    TwoWishes(RpmRules(ix, needs), y, d, first, second, e, alternatives, seen, problems);
  }

  /** `a` and `b` provide `c`; `d` provides the name `b`, but not `c`. */
  function NamesakeIndex(a: string, b: string, c: string, d: string, y: string): Index {
    Index(map[a := [a], b := [b, d], c := [a, b], d := [d], y := [y]], map[], map[])
  }

  lemma NamesakeAsks(ix: Index, needs: map<string, seq<string>>, a: string, b: string, c: string)
    requires NoBlank(c) && c != "" && c[0] != '(' && a != b && c != a && c != b && ix.overrides == map[] && ix.provideEvr == map[]
    requires Providers(ix, c) == [a, b]
    ensures var r := RpmRules(ix, needs);
      exists candidates :: MayNeed(r, c, false) == {Ask(c, candidates)} && b in candidates
    ensures forall p :: Meets(ix, c, p) <==> p == a || p == b
    ensures !IsRichDep(StripVersion(c))
  {
    WordIsName(c);
    WordIsBare(c);
    NamesakeIsOpen(ix, a, b, c);
    var r := RpmRules(ix, needs);
    var res := Resolve(ix, c);
    assert PlainOutcome(r, c, false) == Ask(c, res.candidates);
  }

  lemma NamesakeIsOpen(ix: Index, a: string, b: string, c: string)
    requires SplitConstraint(c) == Split(c, None, "") && a != b && c != a && c != b
    requires ix.overrides == map[] && ix.provideEvr == map[] && Providers(ix, c) == [a, b]
    ensures Resolve(ix, c).Ambiguous? && b in Resolve(ix, c).candidates
    ensures forall p :: Meets(ix, c, p) <==> p == a || p == b
  {
    assert Providers(ix, c)[0] == a && Providers(ix, c)[1] == b;
    forall p ensures Meets(ix, c, p) <==> p == a || p == b {
      assert Versions(ix, c, p) == [];
    }
    assert !Overridden(ix, c) && Meets(ix, c, a) && Meets(ix, c, b) && !Meets(ix, c, c);
    RefusedExactlyWhen(ix, c);
  }

  lemma WordIsTaken(ix: Index, needs: map<string, seq<string>>, d: string)
    requires NoBlank(d) && d != "" && d[0] != '(' && ix.overrides == map[] && Providers(ix, d) == [d]
    ensures var r := RpmRules(ix, needs);
      MayNeed(r, d, false) == {Take(d)} && !r.rich(r.strip(d)) && r.strip(d) == d && r.resolve(d) == Chosen(d)
  {
    WordIsName(d);
    WordIsBare(d);
    OnlyProvider(ix, d);
  }

  lemma NeedsOfOne(ix: Index, y: string, needed: seq<string>)
    ensures forall p :: Needs(RpmRules(ix, map[y := needed]), p) == if p == y then needed else []
  {
  }

  lemma MetByNone(ix: Index, r: Rules, c: string, s: set<string>)
    requires ix.overrides == map[] && !IsRichDep(StripVersion(c)) && forall p :: p in s ==> !Meets(ix, c, p)
    ensures !NeedHolds(ix, r, c, false, s)
  {
  }

  /**
   * `y` requires `d` and `c`.  `a` and `b` provide `c`, and `d` the name `b`:
   * the choice between `a` and `b` is dropped, and nothing provides `c`.
   */
  lemma NamesakeSettlesChoice(a: string, b: string, c: string, d: string, y: string)
    requires Words([a, b, c, d, y])
    ensures ReliableButForNames(NamesakeIndex(a, b, c, d, y))
    ensures NamesakeSettled(NamesakeIndex(a, b, c, d, y), map[y := [d, c]], c, d, y)
  {
    NamesakeIsClean(a, b, c, d, y);
    NamesakeRun(a, b, c, d, y);
  }

  /** The solve is clean, with `y` and `d`, and does not meet the requirement. */
  ghost predicate NamesakeSettled(ix: Index, needs: map<string, seq<string>>, c: string, d: string, y: string) {
    SolvesCleanly(ix, needs, [y], {y, d}) && !NeedHolds(ix, RpmRules(ix, needs), c, false, {y, d})
  }

  lemma NamesakeRun(a: string, b: string, c: string, d: string, y: string)
    requires Words([a, b, c, d, y])
    ensures NamesakeSettled(NamesakeIndex(a, b, c, d, y), map[y := [d, c]], c, d, y)
  {
    var ix, needs := NamesakeIndex(a, b, c, d, y), map[y := [d, c]];
    WordsAre(a, b, c, d, y);
    NamesakeLooksUp(a, b, c, d, y);
    NamesakeSettles(ix, needs, a, b, c, d, y);
    NamesakeUnmet(ix, RpmRules(ix, needs), a, b, c, {y, d});
  }

  lemma WordsAre(a: string, b: string, c: string, d: string, y: string)
    requires Words([a, b, c, d, y])
    ensures NoBlank(c) && c != "" && c[0] != '(' && NoBlank(d) && d != "" && d[0] != '('
    ensures a != b && a != c && a != d && a != y && b != c && b != d && b != y && c != d && c != y && d != y
  {
    var names := [a, b, c, d, y];
    assert names[0] == a && names[1] == b && names[2] == c && names[3] == d && names[4] == y;
  }

  lemma NamesakeLooksUp(a: string, b: string, c: string, d: string, y: string)
    requires a != b && a != c && a != d && a != y && b != c && b != d && b != y && c != d && c != y && d != y
    ensures var ix := NamesakeIndex(a, b, c, d, y);
      && Providers(ix, c) == [a, b] && Providers(ix, d) == [d] && d in Providers(ix, b)
  {
    assert [b, d][1] == d;
  }

  /** What a closure's meaning rests on, but that a package's name may have other providers. */
  ghost predicate ReliableButForNames(ix: Index) {
    ReadableKeys(ix) && NoneRich(ix) && OverridesProvide(ix) && !SelfProvided(ix)
  }

  /** There is no override; only the name `b` has another provider. */
  lemma NamesakeIsClean(a: string, b: string, c: string, d: string, y: string)
    requires Words([a, b, c, d, y])
    ensures ReliableButForNames(NamesakeIndex(a, b, c, d, y))
  {
    var ix, names := NamesakeIndex(a, b, c, d, y), [a, b, c, d, y];
    assert names[0] == a && names[1] == b && names[2] == c && names[3] == d && names[4] == y;
    WordsAreReadable(ix, names);
    assert [a, b][1] == b && [b, d][1] == d;
    assert b in Providers(ix, c) && d in Providers(ix, b);
  }

  lemma NamesakeSettles(ix: Index, needs: map<string, seq<string>>, a: string, b: string, c: string, d: string,
                        y: string)
    requires NoBlank(c) && c != "" && c[0] != '(' && a != b && c != a && c != b
    requires NoBlank(d) && d != "" && d[0] != '('
    requires ix.overrides == map[] && ix.provideEvr == map[] && needs == map[y := [d, c]]
    requires Providers(ix, c) == [a, b] && Providers(ix, d) == [d] && d in Providers(ix, b)
    ensures SolvesCleanly(ix, needs, [y], {y, d})
  {
    var candidates := NamesakeRequired(ix, needs, a, b, c, d, y);
    forall seen, problems | Solved(ix, needs, [y], [], seen, problems) ensures seen == {y, d} && problems == [] {
      TwoSolved(ix, needs, y, d, d, c, c, candidates, seen, problems);
    }
  }

  lemma NamesakeUnmet(ix: Index, r: Rules, a: string, b: string, c: string, s: set<string>)
    requires NoBlank(c) && c != "" && c[0] != '(' && a != b && c != a && c != b && a !in s && b !in s
    requires ix.overrides == map[] && ix.provideEvr == map[] && Providers(ix, c) == [a, b]
    ensures !NeedHolds(ix, r, c, false, s)
  {
    WordIsName(c);
    WordIsBare(c);
    NamesakeIsOpen(ix, a, b, c);
    MetByNone(ix, r, c, s);
  }

  lemma NamesakeRequired(ix: Index, needs: map<string, seq<string>>, a: string, b: string, c: string, d: string,
                         y: string)
    returns (candidates: seq<string>)
    requires NoBlank(c) && c != "" && c[0] != '(' && a != b && c != a && c != b
    requires NoBlank(d) && d != "" && d[0] != '('
    requires ix.overrides == map[] && ix.provideEvr == map[] && needs == map[y := [d, c]]
    requires Providers(ix, c) == [a, b] && Providers(ix, d) == [d] && d in Providers(ix, b)
    ensures TwoRequired(RpmRules(ix, needs), y, d, d, c, c, candidates)
  {
    var r := RpmRules(ix, needs);
    NamesakeAsks(ix, needs, a, b, c);
    WordIsTaken(ix, needs, d);
    NeedsOfOne(ix, y, [d, c]);
    candidates :| MayNeed(r, c, false) == {Ask(c, candidates)} && b in candidates;
    PresentThrough(ix, needs, candidates, b, d, {y, d});
  }

  lemma PresentThrough(ix: Index, needs: map<string, seq<string>>, candidates: seq<string>, b: string, d: string,
                       s: set<string>)
    requires ix.overrides == map[] && b in candidates && d in Providers(ix, b) && d in s
    ensures AnyPresent(RpmRules(ix, needs), candidates, s)
  {
    var r := RpmRules(ix, needs);
    assert r.providers(b) == Providers(ix, b);
    var j :| 0 <= j < |r.providers(b)| && r.providers(b)[j] == d;
    assert Present(r, b, s);
    var i :| 0 <= i < |candidates| && candidates[i] == b;
  }

  // ── Half a branch that settles a choice ──────────────────────────────

  /** `((a and b) or c)` */
  function Either(a: string, b: string, c: string): Node {
    Chain(Or, [Chain(And, [Cap(a), Cap(b)]), Cap(c)])
  }

  /** Every name is provided only by itself. */
  function PlainIndex(a: string, b: string, c: string, y: string): Index {
    Index(map[a := [a], b := [b], c := [c], y := [y]], map[], map[])
  }

  lemma EitherIsRead(a: string, b: string, c: string, text: string)
    requires PlainCap(RpmWord, a, false) && PlainCap(RpmWord, b, true) && PlainCap(RpmWord, c, true)
    requires text == Unparse(RpmWord, Either(a, b, c))
    ensures IsRichDep(text) && StripVersion(text) == text && ParseBoolean(RpmWord, text) == Some(Either(a, b, c))
  {
    var n, both := Either(a, b, c), Chain(And, [Cap(a), Cap(b)]);
    assert OperandOk(RpmWord, Cap(a), false) && OperandOk(RpmWord, Cap(b), true) && OperandOk(RpmWord, Cap(c), true);
    assert Printable(RpmWord, both);
    RpmRoundTripIff(n);
    GroupedIsRich(n, text);
  }

  ghost predicate OnlyItself(r: Rules, x: string) {
    r.strip(x) == x && r.resolveBare(x) == Chosen(x) && r.providers(x) == [x]
  }

  ghost predicate OnlyThemselves(r: Rules, a: string, b: string, c: string, y: string) {
    && OnlyItself(r, a) && OnlyItself(r, b) && OnlyItself(r, c)
    && a != b && a != c && b != c && y != a && y != b && y != c && r.overrides == map[]
  }

  /** What the requirement comes to, and what it is among `y` and `a`. */
  lemma EitherAsks(r: Rules, a: string, b: string, c: string, y: string)
    requires OnlyThemselves(r, a, b, c, y)
    ensures var n := Either(a, b, c);
      && May(r, n) == {Ask(r.show(n), [a, b, c])} && UnlessFree(n)
      && AnyPresent(r, [a, b, c], {y, a}) && !Holds(r, n, {y, a})
  {
    var n, both := Either(a, b, c), Chain(And, [Cap(a), Cap(b)]);
    EitherNames(r, a, b, c);
    EitherLives(r, a, b, c);
    assert OrOutcome(r, n) == Ask(r.show(n), [a, b, c]);
    assert r.providers(a)[0] == a && Present(r, [a, b, c][0], {y, a});
    assert !Provided(r, b, {y, a}) && !Provided(r, c, {y, a});
    assert !Holds(r, Cap(b), {y, a}) && both.children[1] == Cap(b);
    assert !Holds(r, both, {y, a}) && !Holds(r, Cap(c), {y, a});
  }

  lemma EitherNames(r: Rules, a: string, b: string, c: string)
    requires r.strip(a) == a && r.strip(b) == b && r.strip(c) == c
    ensures LeafNames(r, Either(a, b, c)) == Some([a, b, c])
  {
    var both := Chain(And, [Cap(a), Cap(b)]);
    LeafNamesStep(r, Cap(b), []);
    LeafNamesStep(r, Cap(c), []);
    LeafNamesStep(r, Cap(a), [Cap(b)]);
    assert [Cap(b)] + [] == [Cap(b)] && [Cap(c)] + [] == [Cap(c)] && [Cap(a)] + [Cap(b)] == both.children;
    assert [a] + ([b] + []) == [a, b] && LeafNames(r, both) == Some([a, b]);
    LeafNamesStep(r, both, [Cap(c)]);
    assert [both] + [Cap(c)] == Either(a, b, c).children && [a, b] + ([c] + []) == [a, b, c];
  }

  lemma LeafNamesStep(r: Rules, n: Node, ns: seq<Node>)
    requires LeafNames(r, n).Some? && LeafNamesAll(r, ns).Some?
    ensures LeafNamesAll(r, [n] + ns) == Some(LeafNames(r, n).value + LeafNamesAll(r, ns).value)
  {
    assert ([n] + ns)[1..] == ns;
  }

  lemma EitherLives(r: Rules, a: string, b: string, c: string)
    requires r.resolveBare(a) == Chosen(a) && r.resolveBare(b) == Chosen(b) && r.resolveBare(c) == Chosen(c)
    requires a != b && a != c && b != c
    ensures Live(r, [a, b, c]) == Some({a, b, c}) && |{a, b, c}| == 3
  {
    LiveStep(r, c, []);
    LiveStep(r, b, [c]);
    LiveStep(r, a, [b, c]);
    assert [c] + [] == [c] && [b] + [c] == [b, c] && [a] + [b, c] == [a, b, c];
    assert {a} + ({b} + ({c} + {})) == {a, b, c};
  }

  lemma LiveStep(r: Rules, name: string, names: seq<string>)
    requires r.resolveBare(name).Chosen? && Live(r, names).Some?
    ensures Live(r, [name] + names) == Some({r.resolveBare(name).pkg} + Live(r, names).value)
  {
    assert ([name] + names)[1..] == names;
  }

  lemma EitherInRpm(ix: Index, needs: map<string, seq<string>>, x: string)
    requires NoBlank(x) && x != "" && x[0] != '(' && ix.overrides == map[] && ix.provideEvr == map[] && Providers(ix, x) == [x]
    ensures OnlyItself(RpmRules(ix, needs), x)
  {
    WordIsName(x);
    OnlyProvider(ix, x);
    assert ix.(provideEvr := map[]) == ix;
  }

  lemma PlainLooksUp(a: string, b: string, c: string, y: string)
    requires Words([a, b, c, y])
    ensures var ix := PlainIndex(a, b, c, y); Providers(ix, a) == [a] && Providers(ix, b) == [b] && Providers(ix, c) == [c]
    ensures NoBlank(a) && a != "" && a[0] != '(' && NoBlank(b) && b != "" && b[0] != '(' && NoBlank(c) && c != "" && c[0] != '('
    ensures a != b && a != c && b != c && y != a && y != b && y != c
  {
    var names := [a, b, c, y];
    assert names[0] == a && names[1] == b && names[2] == c && names[3] == y;
  }

  lemma PlainIsPlain(ix: Index, needs: map<string, seq<string>>, a: string, b: string, c: string, y: string)
    requires Words([a, b, c, y]) && ix == PlainIndex(a, b, c, y)
    ensures OnlyThemselves(RpmRules(ix, needs), a, b, c, y)
    ensures NoBlank(a) && a != "" && a[0] != '(' && Providers(ix, a) == [a]
  {
    PlainLooksUp(a, b, c, y);
    EitherInRpm(ix, needs, a);
    EitherInRpm(ix, needs, b);
    EitherInRpm(ix, needs, c);
  }

  lemma EitherUnmet(ix: Index, r: Rules, a: string, b: string, c: string, y: string, text: string)
    requires OnlyThemselves(r, a, b, c, y) && r.read(text) == Some(Either(a, b, c))
    requires IsRichDep(text) && StripVersion(text) == text
    ensures !NeedHolds(ix, r, text, false, {y, a})
  {
    EitherAsks(r, a, b, c, y);
    WishHolds(ix, r, Either(a, b, c), text, {y, a});
  }

  lemma EitherRequired(r: Rules, a: string, b: string, c: string, y: string, text: string)
    requires OnlyThemselves(r, a, b, c, y)
    requires r.strip(text) == text && r.rich(text) && r.read(text) == Some(Either(a, b, c))
    requires forall p :: Needs(r, p) == if p == y then [a, text] else []
    requires MayNeed(r, a, false) == {Take(a)} && !r.rich(r.strip(a))
    ensures TwoRequired(r, y, a, a, text, r.show(Either(a, b, c)), [a, b, c])
  {
    EitherAsks(r, a, b, c, y);
  }

  lemma EitherSettles(ix: Index, needs: map<string, seq<string>>, a: string, b: string, c: string, y: string,
                      text: string)
    requires Words([a, b, c, y]) && ix == PlainIndex(a, b, c, y) && needs == map[y := [a, text]]
    requires IsRichDep(text) && StripVersion(text) == text && ParseBoolean(RpmWord, text) == Some(Either(a, b, c))
    ensures SolvesCleanly(ix, needs, [y], {y, a}) && !NeedHolds(ix, RpmRules(ix, needs), text, false, {y, a})
  {
    var r := RpmRules(ix, needs);
    PlainIsPlain(ix, needs, a, b, c, y);
    WishIsUnderstood(ix, needs, Either(a, b, c), text);
    WordIsTaken(ix, needs, a);
    NeedsOfOne(ix, y, [a, text]);
    EitherRequired(r, a, b, c, y, text);
    EitherUnmet(ix, r, a, b, c, y, text);
    forall seen, problems | Solved(ix, needs, [y], [], seen, problems) ensures seen == {y, a} && problems == [] {
      TwoSolved(ix, needs, y, a, a, text, r.show(Either(a, b, c)), [a, b, c], seen, problems);
    }
  }

  lemma EitherSpelled(a: string, b: string, c: string)
    ensures Unparse(RpmWord, Either(a, b, c)) == "((" + a + " and " + b + ") or " + c + ")"
  {
    var both := Chain(And, [Cap(a), Cap(b)]);
    assert BooleanScan.Token(RpmWord, And) == " " + RpmWord(And) + " " == " and ";
    assert BooleanScan.Token(RpmWord, Or) == " " + RpmWord(Or) + " " == " or ";
    JoinTwo(Cap(a), Cap(b), " and ");
    JoinTwo(both, Cap(c), " or ");
  }

  lemma EitherLiteral(a: string, b: string, c: string, text: string)
    requires a == "a" && b == "b" && c == "c" && text == "((a and b) or c)"
    ensures text == Unparse(RpmWord, Either(a, b, c))
  {
    EitherSpelled(a, b, c);
    assert "((" + a + " and " + b + ") or " + c + ")" == text;
  }

  lemma LettersAreWords(names: seq<string>)
    requires forall i :: 0 <= i < |names| ==> |names[i]| == 1 && 'a' <= names[i][0] <= 'z'
    requires forall i, j :: 0 <= i < j < |names| ==> names[i][0] != names[j][0]
    ensures Words(names)
    ensures forall i :: 0 <= i < |names| ==> PlainCap(RpmWord, names[i], true) && PlainCap(RpmWord, names[i], false)
  {
    forall i | 0 <= i < |names|
      ensures NoBlank(names[i]) && names[i] != "" && names[i][0] != '('
      ensures PlainCap(RpmWord, names[i], true) && PlainCap(RpmWord, names[i], false)
    {
      LetterIsWord(names[i]);
    }
  }

  lemma EitherIsWritten(a: string, b: string, c: string, y: string, text: string)
    requires a == "a" && b == "b" && c == "c" && y == "y" && text == "((a and b) or c)"
    ensures Words([a, b, c, y])
    ensures IsRichDep(text) && StripVersion(text) == text && ParseBoolean(RpmWord, text) == Some(Either(a, b, c))
  {
    var names := [a, b, c, y];
    LettersAreWords(names);
    assert names[0] == a && names[1] == b && names[2] == c;
    EitherLiteral(a, b, c, text);
    EitherIsRead(a, b, c, text);
  }

  /** `y` requires `a` and `((a and b) or c)`: the choice is dropped because `a` is there, and `b` and `c` are not. */
  lemma HalfSettlesChoice(a: string, b: string, c: string, y: string, text: string)
    requires a == "a" && b == "b" && c == "c" && y == "y" && text == "((a and b) or c)"
    ensures var ix, needs := PlainIndex(a, b, c, y), map[y := [a, text]];
      SolvesCleanly(ix, needs, [y], {y, a}) && !NeedHolds(ix, RpmRules(ix, needs), text, false, {y, a})
  {
    EitherIsWritten(a, b, c, y, text);
    EitherSettles(PlainIndex(a, b, c, y), map[y := [a, text]], a, b, c, y, text);
  }

  // ── A range answered with a version outside it ───────────────────────

  /** `p` provides versions 1 and 3 of `name` and `q` version 2, each at release 1. */
  function ThreeVersions(name: string, p: string, q: string, one: string, two: string, three: string): Index {
    Index(map[name := [p, q]],
          map[name := map[p := [Released(one, one), Released(three, one)], q := [Released(two, one)]]],
          map[])
  }

  function Released(version: string, release: string): Evr {
    Evr(None, Some(version), Some(release))
  }

  lemma DigitTokens(c: string)
    requires |c| == 1 && '0' <= c[0] <= '9'
    ensures Tokens(c) == [Number(c[0] as int - '0' as int)]
  {
    assert DigitEnd(c, 1) == 1 && c[0..DigitEnd(c, 0)] == c && TokensFrom(c, 1) == [];
    assert c[1..] == "" && ValueFrom(c, 0) == ValueFrom(c[1..], 0 * 10 + DigitValue(c[0]));
    assert Value(c) == DigitValue(c[0]);
  }

  lemma DigitsCompare(a: string, b: string, release: string)
    requires |a| == |b| == 1 && '0' <= a[0] < b[0] <= '9'
    ensures CompareEvr(Released(a, release), Released(b, release)) < 0
  {
    DigitTokens(a);
    DigitTokens(b);
    CompareTokensZero(Tokens(a), Tokens(b));
  }

  lemma DigitIsWritable(name: string, v: string, release: string)
    requires NoBlank(name) && (name == "" || name[0] != '(')
    requires |v| == |release| == 1 && '0' <= v[0] <= '9' && '0' <= release[0] <= '9'
    ensures Writable(name, Released(v, release))
  {
    var text := BoundText(Released(v, release));
    assert text == v + "-" + release && NoBlank(text);
    forall op ensures Legible(name, op, text) { WordsAreLegible(name, op, text); }
  }

  /** `(n >= 1-1 with n < 3-1)` is answered with the package that states 1 and 3, though the other states 2. */
  lemma NewerElsewhere(name: string, p: string, q: string, one: string, two: string, three: string)
    requires name == "n" && p == "p" && q == "q" && one == "1" && two == "2" && three == "3"
    ensures var ix, mid := ThreeVersions(name, p, q, one, two, three), Released(two, one);
      var caps := [Rendered(name, Ge, Released(one, one)), Rendered(name, Lt, Released(three, one))];
      && ResolveRange(ix, caps) == Chosen(p)
      && RangeMet(ix, caps, q) && mid in Versions(ix, name, q) && MeetsBounds(mid, caps)
      && forall e :: e in Versions(ix, name, p) && MeetsBounds(e, caps) ==> CompareEvr(e, mid) < 0
  {
    var ix := ThreeVersions(name, p, q, one, two, three);
    DigitIsWritable(name, one, one);
    DigitIsWritable(name, three, one);
    DigitsCompare(one, two, one);
    DigitsCompare(two, three, one);
    NewerOutOfRange(ix, name, p, q, Released(one, one), Released(two, one), Released(three, one));
  }
}
