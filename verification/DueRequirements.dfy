/** Requirements there is no choice about: what the repositories offer decides them, so they are met and not reported. */
module DueRequirements {
  import opened Options
  import opened TextOrder
  import opened PyText
  import opened Requirement
  import opened Provider
  import opened BooleanDeps
  import opened ClosureRules
  import opened ClosureInvariant
  import opened ClosureRun
  import opened ClosureMeaning
  import opened RuntimeClosure
  import opened RpmClosure
  import opened KeptRequirements

  // ── One answer ───────────────────────────────────────────────────────

  /** The override that answers a capability: its own, else its name's. */
  ghost predicate AnsweredWith(ix: Index, capability: string, p: string) {
    if capability in ix.overrides then ix.overrides[capability] == p
    else StripVersion(capability) in ix.overrides && ix.overrides[StripVersion(capability)] == p
  }

  /** The override's answer; or, without an override, the package of that name or the only one that meets it. */
  ghost predicate OneMeets(ix: Index, capability: string, p: string) {
    if Overridden(ix, capability) then AnsweredWith(ix, capability, p)
    else Meets(ix, capability, p) && (p == StripVersion(capability) || forall q :: Meets(ix, capability, q) ==> q == p)
  }

  /** The only package that is one of an expression's. */
  ghost predicate OnlyOne(r: Rules, n: Node, p: string) {
    OneProvides(r, n, p) && forall q :: OneProvides(r, n, q) ==> q == p
  }

  /**
   * Each branch is a capability without an override that nothing or only `p`
   * provides, and `p` provides one. (`OnlyBy` asks that a branch's name has
   * nothing left to strip: "a < b >= 1" is looked up as "a < b", then as "a".)
   */
  ghost predicate OneAlternative(ix: Index, children: seq<Node>, p: string) {
    (forall i :: 0 <= i < |children| ==> OnlyBy(ix, children[i], p)) && AnyOf(ix, children, p)
  }

  ghost predicate AnyOf(ix: Index, children: seq<Node>, p: string) {
    exists i :: 0 <= i < |children| && children[i].Cap? && p in Providers(ix, StripVersion(children[i].text))
  }

  ghost predicate OnlyBy(ix: Index, n: Node, p: string) {
    && n.Cap? && StripVersion(StripVersion(n.text)) == StripVersion(n.text) && StripVersion(n.text) !in ix.overrides
    && forall q :: q in Providers(ix, StripVersion(n.text)) ==> q == p
  }

  lemma OneMeetsIsChosen(ix: Index, capability: string, p: string)
    requires OneMeets(ix, capability, p)
    ensures Resolve(ix, capability) == Chosen(p)
  {
    if Overridden(ix, capability) {
      OverrideAnswers(ix, capability, p);
    } else if p == StripVersion(capability) {
      ExactNameWins(ix, capability);
    } else {
      OnlyOneIsChosen(ix, capability, p);
    }
  }

  lemma OnlyByIsChosen(ix: Index, n: Node, p: string)
    requires OnlyBy(ix, n, p)
    ensures var bare := ix.(provideEvr := map[]);
      Resolve(bare, StripVersion(n.text))
      == if p in Providers(ix, StripVersion(n.text)) then Chosen(p) else NoProvider
  {
    var bare, name := ix.(provideEvr := map[]), StripVersion(n.text);
    assert forall q :: Providers(bare, q) == Providers(ix, q) && Versions(bare, name, q) == [];
    RefusedExactlyWhen(bare, name);
    if p in Providers(ix, name) {
      assert Meets(bare, name, p);
      OnlyOneIsChosen(bare, name, p);
    } else {
      NothingIn(Providers(ix, name));
    }
  }

  lemma NothingIn(xs: seq<string>)
    ensures xs == [] || exists x :: x in xs
  {
    if xs != [] { assert xs[0] in xs; }
  }

  /** What a branch that nothing or only `p` provides comes to. */
  ghost predicate BareIsOne(r: Rules, n: Node, p: string) {
    n.Cap? && r.resolveBare(r.strip(n.text)) == if p in r.providers(r.strip(n.text)) then Chosen(p) else NoProvider
  }

  ghost predicate SomeBranch(r: Rules, children: seq<Node>, p: string) {
    exists i :: 0 <= i < |children| && children[i].Cap? && p in r.providers(r.strip(children[i].text))
  }

  /** Live alternatives, when only `p` provides any of them. */
  lemma {:induction false} LiveIsOne(r: Rules, children: seq<Node>, p: string)
    requires forall i :: 0 <= i < |children| ==> BareIsOne(r, children[i], p)
    ensures LeafNamesAll(r, children).Some?
    ensures Live(r, LeafNamesAll(r, children).value) == Some(if SomeBranch(r, children, p) then {p} else {})
  {
    if children != [] {
      var rest := children[1..];
      assert BareIsOne(r, children[0], p) && forall i :: 0 <= i < |rest| ==> rest[i] == children[i + 1];
      LiveIsOne(r, rest, p);
      LiveFirst(r, children, p);
      SomeBranchFirst(r, children, p);
      var one: set<string>, none: set<string> := {p}, {};
      assert one + one == one && one + none == one && none + one == one && none + none == none;
    }
  }

  lemma SomeBranchFirst(r: Rules, children: seq<Node>, p: string)
    requires children != [] && children[0].Cap?
    ensures SomeBranch(r, children, p) <==> p in r.providers(r.strip(children[0].text)) || SomeBranch(r, children[1..], p)
  {
    var rest := children[1..];
    assert forall i :: 0 <= i < |rest| ==> rest[i] == children[i + 1];
    if i :| 0 <= i < |children| && children[i].Cap? && p in r.providers(r.strip(children[i].text)) {
      assert i > 0 ==> rest[i - 1] == children[i];
    }
    if i :| 0 <= i < |rest| && rest[i].Cap? && p in r.providers(r.strip(rest[i].text)) {
      assert children[i + 1] == rest[i];
    }
  }

  lemma LiveFirst(r: Rules, children: seq<Node>, p: string)
    requires children != [] && children[0].Cap? && LeafNamesAll(r, children[1..]).Some?
    requires Live(r, LeafNamesAll(r, children[1..]).value).Some?
    requires var res := r.resolveBare(r.strip(children[0].text)); res == Chosen(p) || res == NoProvider
    ensures LeafNamesAll(r, children).Some?
    ensures Live(r, LeafNamesAll(r, children).value)
         == Some((if r.resolveBare(r.strip(children[0].text)) == Chosen(p) then {p} else {})
                 + Live(r, LeafNamesAll(r, children[1..]).value).value)
  {
    var name, names := r.strip(children[0].text), LeafNamesAll(r, children[1..]).value;
    assert LeafNames(r, children[0]) == Some([name]) && LeafNamesAll(r, children) == Some([name] + names);
    assert ([name] + names)[1..] == names && {} + Live(r, names).value == Live(r, names).value;
  }

  /** So the package is taken. */
  lemma OneAlternativeIsTaken(ix: Index, needs: map<string, seq<string>>, n: Node, p: string)
    requires n.Chain? && n.op.Or? && OneAlternative(ix, n.children, p) && Unparse(RpmWord, n) !in ix.overrides
    ensures OrOutcome(RpmRules(ix, needs), n) == Take(p)
  {
    var r := RpmRules(ix, needs);
    forall i | 0 <= i < |n.children| ensures BareIsOne(r, n.children[i], p) {
      assert OnlyBy(ix, n.children[i], p);
      OnlyByIsChosen(ix, n.children[i], p);
    }
    AnyOfRules(ix, r, n.children, p);
    LiveIsOne(r, n.children, p);
    TakenAlone(r, n, p);
  }

  lemma AnyOfRules(ix: Index, r: Rules, children: seq<Node>, p: string)
    requires AnyOf(ix, children, p) && forall c :: r.providers(r.strip(c)) == Providers(ix, StripVersion(c))
    ensures SomeBranch(r, children, p)
  {
    var i :| 0 <= i < |children| && children[i].Cap? && p in Providers(ix, StripVersion(children[i].text));
    assert r.providers(r.strip(children[i].text)) == Providers(ix, StripVersion(children[i].text));
  }

  lemma TakenAlone(r: Rules, n: Node, p: string)
    requires n.Chain? && n.op.Or? && r.show(n) !in r.overrides
    requires LeafNamesAll(r, n.children).Some? && Live(r, LeafNamesAll(r, n.children).value) == Some({p})
    ensures OrOutcome(r, n) == Take(p)
  {
    assert LeafNames(r, n) == LeafNamesAll(r, n.children);
    assert |{p}| == 1;
  }

  // ── One package for all of a `with`, or for the first and not the second ─

  lemma OneOf(xs: seq<string>, p: string)
    requires Ascending(xs) && p in xs && forall x :: x in xs ==> x == p
    ensures xs == [p]
  {
    if |xs| > 1 {
      assert Less(xs[0], xs[1]) && xs[0] in xs && xs[1] in xs;
      LessIrreflexive(p);
    }
  }

  lemma CommonAscends(ix: Index, names: seq<string>)
    ensures Ascending(Common(ix, names))
  {
    if |names| == 1 {
      SortedAscending(Providers(ix, names[0]));
    } else if names != [] {
      SortedAscending(Both(Providers(ix, names[0]), Common(ix, names[1..])));
    }
  }

  /** The names a `with` mentions, one package providing them all. */
  ghost predicate OnlyCommon(ix: Index, names: seq<string>, p: string) {
    names != [] && ProvidesAll(ix, names, p) && forall q :: ProvidesAll(ix, names, q) ==> q == p
  }

  ghost predicate ProvidesAll(ix: Index, names: seq<string>, p: string) {
    forall n :: n in names ==> p in Providers(ix, n)
  }

  lemma OnlyCommonIsOne(ix: Index, names: seq<string>, p: string)
    requires OnlyCommon(ix, names, p)
    ensures Common(ix, names) == [p]
  {
    CommonAscends(ix, names);
    forall q | q in Common(ix, names) ensures q == p {
      assert ProvidesAll(ix, names, q);
    }
    OneOf(Common(ix, names), p);
  }

  lemma OnlyWithoutIsOne(ix: Index, b: string, c: string, p: string)
    requires p in Providers(ix, b) && p !in Providers(ix, c)
    requires forall q :: q in Providers(ix, b) && q !in Providers(ix, c) ==> q == p
    ensures Sorted(Except(Providers(ix, b), Providers(ix, c))) == [p]
  {
    var left := Except(Providers(ix, b), Providers(ix, c));
    SortedAscending(left);
    OneOf(Sorted(left), p);
  }

  /** The override of a range's name; or, without one, the only package within the bounds. */
  ghost predicate OneInRange(ix: Index, caps: seq<string>, p: string) {
    && caps != []
    && (if StripVersion(caps[0]) in ix.overrides then ix.overrides[StripVersion(caps[0])] == p
        else RangeMet(ix, caps, p) && forall q :: RangeMet(ix, caps, q) ==> q == p)
  }

  lemma OneInRangeIsChosen(ix: Index, caps: seq<string>, p: string)
    requires OneInRange(ix, caps, p)
    ensures ResolveRange(ix, caps) == Chosen(p)
  {
    var name := StripVersion(caps[0]);
    if name !in ix.overrides {
      var kept := Narrow(ix, name, caps, Providers(ix, name));
      SortedAscending(kept);
      assert RangeMet(ix, caps, p) && p in kept;
      forall x | x in Sorted(kept) ensures x == p { assert RangeMet(ix, caps, x); }
      OneOf(Sorted(kept), p);
    }
  }

  // ── What is a range, and what is offered ─────────────────────────────

  /** `with` all the way down to capabilities. */
  predicate OnlyWith(n: Node) {
    match n
    case Cap(_) => true
    case Chain(op, children) => op.With? && forall i :: 0 <= i < |children| ==> OnlyWith(children[i])
    case _ => false
  }

  /** The capability is one of the expression's leaves. */
  ghost predicate IsLeaf(n: Node, text: string) {
    match n
    case Cap(t) => t == text
    case Chain(_, children) => exists i :: 0 <= i < |children| && IsLeaf(children[i], text)
    case _ => false
  }

  /** Only a conjunction has bounds, and they are its leaves: branches of an `or` are never taken together. */
  lemma {:induction false} BoundsAreLeaves(n: Node)
    ensures LeafCaps(n).Some? <==> OnlyWith(n)
    ensures LeafCaps(n).Some? ==> forall c :: c in LeafCaps(n).value <==> IsLeaf(n, c)
    decreases n, 0
  {
    if n.Chain? { BoundsOfAll(n.children); }
  }

  lemma {:induction false} BoundsOfAll(ns: seq<Node>)
    ensures LeafCapsAll(ns).Some? <==> forall i :: 0 <= i < |ns| ==> OnlyWith(ns[i])
    ensures LeafCapsAll(ns).Some? ==>
      forall c :: c in LeafCapsAll(ns).value <==> exists i :: 0 <= i < |ns| && IsLeaf(ns[i], c)
    decreases ns
  {
    if ns != [] {
      var rest := ns[1..];
      BoundsAreLeaves(ns[0]);
      BoundsOfAll(rest);
      assert forall i :: 0 <= i < |rest| ==> rest[i] == ns[i + 1];
      assert (forall i :: 0 <= i < |ns| ==> OnlyWith(ns[i])) <==> OnlyWith(ns[0]) && forall i :: 0 <= i < |rest| ==> OnlyWith(rest[i]);
      if LeafCapsAll(ns).Some? {
        forall c ensures c in LeafCapsAll(ns).value <==> exists i :: 0 <= i < |ns| && IsLeaf(ns[i], c) {
          LeafOfOne(ns, c);
        }
      }
    }
  }

  lemma LeafOfOne(ns: seq<Node>, c: string)
    requires ns != []
    ensures (exists i :: 0 <= i < |ns| && IsLeaf(ns[i], c))
      <==> IsLeaf(ns[0], c) || exists i :: 0 <= i < |ns[1..]| && IsLeaf(ns[1..][i], c)
  {
    var rest := ns[1..];
    assert forall i :: 0 <= i < |rest| ==> rest[i] == ns[i + 1];
    if i :| 0 <= i < |ns| && IsLeaf(ns[i], c) {
      assert i > 0 ==> rest[i - 1] == ns[i];
    }
    if i :| 0 <= i < |rest| && IsLeaf(rest[i], c) {
      assert ns[i + 1] == rest[i];
    }
  }

  /** A version range is a conjunction of bounds on one capability. */
  lemma RangeIsWith(r: Rules, n: Node)
    ensures IsRange(r, n) ==> n.Chain? && OnlyWith(n) && LeafCaps(n).Some?
                              && forall c, d :: IsLeaf(n, c) && IsLeaf(n, d) ==> r.strip(c) == r.strip(d)
  {
    BoundsAreLeaves(n);
    if IsRange(r, n) {
      CapsAreNames(r, n);
      var caps, names := LeafCaps(n).value, LeafNames(r, n).value;
      forall c, d | IsLeaf(n, c) && IsLeaf(n, d) ensures r.strip(c) == r.strip(d) {
        assert c in caps && d in caps;
        var i :| 0 <= i < |caps| && caps[i] == c;
        var j :| 0 <= j < |caps| && caps[j] == d;
        assert names[i] == names[0] && names[j] == names[0];
      }
    }
  }

  /** A range that is left open is asked for as its bounds, joined by the word that joins them in the requirement. */
  lemma OpenRangeText(ix: Index, needs: map<string, seq<string>>, n: Node, low: string, high: string)
    requires IsRange(RpmRules(ix, needs), n) && LeafCaps(n) == Some([low, high]) && ResolveRange(ix, [low, high]).Ambiguous?
    ensures FixedOutcome(RpmRules(ix, needs), n)
         == Ask(low + " with " + high, ResolveRange(ix, [low, high]).candidates)
  {
    var r, sep := RpmRules(ix, needs), " with ";
    JoinPair(low, high, sep);
    assert r.rangeText([low, high]) == Join([low, high], sep);
  }

  /** An `or` of capabilities that is left open offers its branches' names, in order, under its own text. */
  lemma BranchesAreOffered(r: Rules, n: Node)
    requires n.Chain? && n.op.Or? && OrOutcome(r, n).Ask? && forall i :: 0 <= i < |n.children| ==> n.children[i].Cap?
    ensures OrOutcome(r, n).expression == r.show(n) && |OrOutcome(r, n).alternatives| == |n.children|
    ensures forall i :: 0 <= i < |n.children| ==> OrOutcome(r, n).alternatives[i] == r.strip(n.children[i].text)
  {
    FlatNames(r, n.children);
  }

  // ── What is due ──────────────────────────────────────────────────────

  /**
   * The expression is due to package `p`, if the closure is `s`: whatever else
   * is in it, `p` is the one answer there is.
   */
  ghost predicate Due(ix: Index, needs: map<string, seq<string>>, n: Node, p: string, s: set<string>) {
    match n
    case Cap(text) => OneMeets(ix, StripVersion(text), p)
    case Chain(op, children) =>
      if op.And? then exists i :: 0 <= i < |children| && Due(ix, needs, children[i], p, s)
      else if op.Or? then OneAlternative(ix, children, p) && Unparse(RpmWord, n) !in ix.overrides
      else op.With? && DueWith(ix, needs, n, p)
    case Minus(left, right) =>
      && left.Cap? && right.Cap?
      && var b, c := StripVersion(left.text), StripVersion(right.text);
      && p in Providers(ix, b) && p !in Providers(ix, c)
      && forall q :: q in Providers(ix, b) && q !in Providers(ix, c) ==> q == p
    case Conditional(op, then_, cond, other) =>
      && Reliable(ix)
      && var r := RpmRules(ix, needs);
      if op.If? && other.None? then Reads(r, cond, true) && True(r, cond, s) && Due(ix, needs, then_, p, s)
      else
        && Positive(cond) && Reads(r, cond, false) && !True(r, cond, s)
        && (if op.If? then Due(ix, needs, other.value, p, s) else op.Unless? && Due(ix, needs, then_, p, s))
  }

  /** A version range with one answer; or different capabilities one package alone provides together. */
  ghost predicate DueWith(ix: Index, needs: map<string, seq<string>>, n: Node, p: string)
    requires n.Chain?
  {
    var r := RpmRules(ix, needs);
    if IsRange(r, n) then OneInRange(ix, LeafCaps(n).value, p)
    else LeafNames(r, n).Some? && OnlyCommon(ix, LeafNames(r, n).value, p)
  }

  lemma WithIsTaken(ix: Index, needs: map<string, seq<string>>, n: Node, p: string)
    requires n.Chain? && n.op.With? && DueWith(ix, needs, n, p)
    ensures FixedOutcome(RpmRules(ix, needs), n) == Take(p)
  {
    var r := RpmRules(ix, needs);
    if IsRange(r, n) {
      OneInRangeIsChosen(ix, LeafCaps(n).value, p);
    } else {
      OnlyCommonIsOne(ix, LeafNames(r, n).value, p);
    }
  }

  lemma WithoutIsTaken(ix: Index, needs: map<string, seq<string>>, n: Node, p: string)
    requires n.Minus? && Due(ix, needs, n, p, {})
    ensures FixedOutcome(RpmRules(ix, needs), n) == Take(p)
  {
    var r, b, c := RpmRules(ix, needs), StripVersion(n.left.text), StripVersion(n.right.text);
    OnlyWithoutIsOne(ix, b, c, p);
    assert LeafNames(r, n.left) == Some([b]) && LeafNames(r, n.right) == Some([c]);
  }

  /** What is due is installed: it is neither left open nor reported instead. */
  lemma {:induction false} DueIsInstalled(ix: Index, needs: map<string, seq<string>>, n: Node, p: string, who: string,
                                          s: set<string>, problems: seq<Problem>)
    requires Due(ix, needs, n, p, s) && Answered(RpmRules(ix, needs), n, who, s, problems)
    ensures p in s
    decreases n
  {
    var r := RpmRules(ix, needs);
    match n
    case Cap(text) => OneMeetsIsChosen(ix, StripVersion(text), p);
    case Chain(op, children) =>
      if op.And? {
        var i :| 0 <= i < |children| && Due(ix, needs, children[i], p, s);
        DueIsInstalled(ix, needs, children[i], p, who, s, problems);
      } else if op.Or? {
        OneAlternativeIsTaken(ix, needs, n, p);
        AlternativesAreOne(ix, r, n, p, s);
      } else {
        WithIsTaken(ix, needs, n, p);
      }
    case Minus(_, _) => WithoutIsTaken(ix, needs, n, p);
    case Conditional(op, then_, cond, other) =>
      TrustyForRpm(ix, needs);
      if op.If? && other.None? {
        ReadsTruly(r, cond, s, true);
        DueIsInstalled(ix, needs, then_, p, who, s, problems);
      } else {
        ReadsTruly(r, cond, s, false);
        if op.If? {
          DueIsInstalled(ix, needs, other.value, p, who, s, problems);
        } else {
          DueIsInstalled(ix, needs, then_, p, who, s, problems);
        }
      }
  }

  /** An `or` only `p` can satisfy. */
  lemma AlternativesAreOne(ix: Index, r: Rules, n: Node, p: string, s: set<string>)
    requires n.Chain? && n.op.Or? && OneAlternative(ix, n.children, p) && r.overrides == ix.overrides
    requires forall c :: r.strip(c) == StripVersion(c) && r.providers(c) == Providers(ix, c)
    ensures Positive(n) && (Satisfied(r, n, s) ==> p in s)
  {
    assert forall i :: 0 <= i < |n.children| ==> OnlyBy(ix, n.children[i], p);
    if Satisfied(r, n, s) {
      var i :| 0 <= i < |n.children| && Satisfied(r, n.children[i], s);
      assert OnlyBy(ix, n.children[i], p);
      var name := StripVersion(n.children[i].text);
      var j :| 0 <= j < |r.providers(name)| && r.providers(name)[j] in s;
      assert r.providers(name)[j] in Providers(ix, name);
    }
  }

  // ── In what a solve gives ────────────────────────────────────────────

  /** An expression that is due, asked for at the root or by a package of the closure. */
  lemma DueIsMet(ix: Index, needs: map<string, seq<string>>, roots: seq<string>, extra: seq<(string, string)>,
                 seen: set<string>, problems: seq<Problem>, cap: string, atRoot: bool, who: string, n: Node, p: string)
    requires Solved(ix, needs, roots, extra, seen, problems)
    requires Asks(RpmRules(ix, needs), extra, seen, cap, atRoot, who)
    requires IsRichDep(StripVersion(cap)) && ParseBoolean(RpmWord, StripVersion(cap)) == Some(n)
    requires Due(ix, needs, n, p, seen)
    ensures p in seen
  {
    AskedIsAnswered(RpmRules(ix, needs), n, roots, extra, cap, atRoot, who, seen, problems);
    DueIsInstalled(ix, needs, n, p, who, seen, problems);
  }

  /** A plain requirement with one answer: its override's package, or the only provider that meets it, or its namesake. */
  lemma PlainIsMet(ix: Index, needs: map<string, seq<string>>, roots: seq<string>, extra: seq<(string, string)>,
                   seen: set<string>, problems: seq<Problem>, cap: string, atRoot: bool, who: string, p: string)
    requires Solved(ix, needs, roots, extra, seen, problems)
    requires Asks(RpmRules(ix, needs), extra, seen, cap, atRoot, who)
    requires !IsRichDep(StripVersion(cap)) && OneMeets(ix, if atRoot then StripVersion(cap) else cap, p)
    ensures p in seen
  {
    var r := RpmRules(ix, needs);
    OneMeetsIsChosen(ix, if atRoot then StripVersion(cap) else cap, p);
    assert PlainOutcome(r, cap, atRoot) == Take(p);
    PlainIsAnswered(r, roots, extra, seen, problems, cap, atRoot, who);
  }

  lemma PlainIsAnswered(r: Rules, roots: seq<string>, extra: seq<(string, string)>, seen: set<string>,
                        problems: seq<Problem>, cap: string, atRoot: bool, who: string)
    requires Ran(r, roots, extra, seen, problems) && Asks(r, extra, seen, cap, atRoot, who)
    ensures NeedAnswered(r, cap, atRoot, who, seen, problems)
  {
    if atRoot {
      var i :| 0 <= i < |extra| && extra[i] == (cap, who);
      assert NeedAnswered(r, extra[i].0, true, extra[i].1, seen, problems);
    } else {
      var i :| 0 <= i < |Needs(r, who)| && Needs(r, who)[i] == cap;
      assert NeedAnswered(r, Needs(r, who)[i], false, who, seen, problems);
    }
  }

  /** An `or` of capabilities with one provided alternative holds. */
  lemma OneAlternativeIsMet(ix: Index, needs: map<string, seq<string>>, roots: seq<string>, extra: seq<(string, string)>,
                            seen: set<string>, problems: seq<Problem>, cap: string, atRoot: bool, who: string, n: Node,
                            p: string)
    requires Solved(ix, needs, roots, extra, seen, problems)
    requires Asks(RpmRules(ix, needs), extra, seen, cap, atRoot, who)
    requires IsRichDep(StripVersion(cap)) && ParseBoolean(RpmWord, StripVersion(cap)) == Some(n)
    requires n.Chain? && n.op.Or? && OneAlternative(ix, n.children, p) && Unparse(RpmWord, n) !in ix.overrides
    ensures p in seen && Holds(RpmRules(ix, needs), n, seen)
  {
    var r := RpmRules(ix, needs);
    DueIsMet(ix, needs, roots, extra, seen, problems, cap, atRoot, who, n, p);
    var i :| 0 <= i < |n.children| && n.children[i].Cap? && p in Providers(ix, StripVersion(n.children[i].text));
    assert Holds(r, n.children[i], seen);
  }

  // ── Overrides keyed on expressions ───────────────────────────────────

  /** The override of an `or` is installed, unless a branch is there already. */
  lemma OverriddenOrIsMet(ix: Index, needs: map<string, seq<string>>, roots: seq<string>, extra: seq<(string, string)>,
                          seen: set<string>, problems: seq<Problem>, cap: string, atRoot: bool, who: string, n: Node)
    requires Solved(ix, needs, roots, extra, seen, problems)
    requires Asks(RpmRules(ix, needs), extra, seen, cap, atRoot, who)
    requires IsRichDep(StripVersion(cap)) && ParseBoolean(RpmWord, StripVersion(cap)) == Some(n)
    requires n.Chain? && n.op.Or? && Plain(RpmRules(ix, needs), n) && Unparse(RpmWord, n) in ix.overrides
    ensures ix.overrides[Unparse(RpmWord, n)] in seen || Satisfied(RpmRules(ix, needs), n, seen)
  {
    var r := RpmRules(ix, needs);
    AskedIsAnswered(r, n, roots, extra, cap, atRoot, who, seen, problems);
    PlainIsPositive(r, n);
    PlainHasNames(r, n);
    assert OrOutcome(r, n) == Take(ix.overrides[Unparse(RpmWord, n)]);
  }

  lemma {:induction false} PlainHasNames(r: Rules, n: Node)
    requires Plain(r, n)
    ensures LeafNames(r, n).Some?
    decreases n, 0
  {
    if n.Chain? { PlainHaveNames(r, n.children); }
  }

  lemma {:induction false} PlainHaveNames(r: Rules, ns: seq<Node>)
    requires forall i :: 0 <= i < |ns| ==> Plain(r, ns[i])
    ensures LeafNamesAll(r, ns).Some?
    decreases ns
  {
    if ns != [] {
      PlainHasNames(r, ns[0]);
      PlainHaveNames(r, ns[1..]);
    }
  }

  /** The override of a `with` over several names is installed, unless one package alone provides them all. */
  lemma OverriddenWithIsMet(ix: Index, needs: map<string, seq<string>>, roots: seq<string>, extra: seq<(string, string)>,
                            seen: set<string>, problems: seq<Problem>, cap: string, atRoot: bool, who: string, n: Node)
    requires Solved(ix, needs, roots, extra, seen, problems)
    requires Asks(RpmRules(ix, needs), extra, seen, cap, atRoot, who)
    requires IsRichDep(StripVersion(cap)) && ParseBoolean(RpmWord, StripVersion(cap)) == Some(n)
    requires n.Chain? && n.op.With? && !IsRange(RpmRules(ix, needs), n) && Unparse(RpmWord, n) in ix.overrides
    requires LeafNames(RpmRules(ix, needs), n).Some? && LeafNames(RpmRules(ix, needs), n).value != []
    requires forall p :: !OnlyCommon(ix, LeafNames(RpmRules(ix, needs), n).value, p)
    ensures ix.overrides[Unparse(RpmWord, n)] in seen
  {
    var r := RpmRules(ix, needs);
    AskedIsAnswered(r, n, roots, extra, cap, atRoot, who, seen, problems);
    WithIsOverridden(ix, needs, n);
  }

  lemma WithIsOverridden(ix: Index, needs: map<string, seq<string>>, n: Node)
    requires n.Chain? && n.op.With? && !IsRange(RpmRules(ix, needs), n) && Unparse(RpmWord, n) in ix.overrides
    requires LeafNames(RpmRules(ix, needs), n).Some? && LeafNames(RpmRules(ix, needs), n).value != []
    requires forall p :: !OnlyCommon(ix, LeafNames(RpmRules(ix, needs), n).value, p)
    ensures FixedOutcome(RpmRules(ix, needs), n) == Take(ix.overrides[Unparse(RpmWord, n)])
  {
    NotOneCommon(ix, LeafNames(RpmRules(ix, needs), n).value);
  }

  lemma NotOneCommon(ix: Index, names: seq<string>)
    requires names != [] && forall p :: !OnlyCommon(ix, names, p)
    ensures |Common(ix, names)| != 1
  {
    var common := Common(ix, names);
    if |common| == 1 {
      assert common[0] in common && ProvidesAll(ix, names, common[0]);
      forall q | ProvidesAll(ix, names, q) ensures q == common[0] {
        assert q in common;
      }
      assert OnlyCommon(ix, names, common[0]);
    }
  }
}
