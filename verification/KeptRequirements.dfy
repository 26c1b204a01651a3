/** Exactly when a requirement is kept, whatever else a run is asked for: it holds of the closure or is reported. */
module KeptRequirements {
  import opened Options
  import opened BooleanScan
  import opened BooleanDeps
  import opened ClosureRules
  import opened ClosureFixpoint
  import opened ClosureBranches
  import opened ClosureRun
  import opened ClosureMeaning
  import opened RuntimeClosure

  /** The requirement is read as this expression. */
  ghost predicate Written(r: Rules, cap: string, n: Node) {
    r.rich(r.strip(cap)) && r.read(r.strip(cap)) == Some(n)
  }

  /**
   * Whatever packages require, whatever the roots are, and whoever asks for the
   * expression: in what a run gives it holds, or is reported.
   */
  ghost predicate KeptInEveryRun(r: Rules, n: Node) {
    forall needs, roots, extra, cap, atRoot, who, seen, problems ::
      AskedInRun(r.(needs := needs), n, roots, extra, cap, atRoot, who, seen, problems) ==>
        KeptIn(r.(needs := needs), n, who, seen, problems)
  }

  /** Somebody asks for it in a run. */
  ghost predicate AskedInRun(r: Rules, n: Node, roots: seq<string>, extra: seq<(string, string)>, cap: string,
                             atRoot: bool, who: string, seen: set<string>, problems: seq<Problem>)
  {
    Written(r, cap, n) && Asks(r, extra, seen, cap, atRoot, who) && Ran(r, roots, extra, seen, problems)
  }

  ghost predicate KeptIn(r: Rules, n: Node, who: string, seen: set<string>, problems: seq<Problem>) {
    Holds(r, n, seen) || Reported(r, n, who, problems)
  }

  lemma AskedIsAnswered(r: Rules, n: Node, roots: seq<string>, extra: seq<(string, string)>, cap: string, atRoot: bool,
                        who: string, seen: set<string>, problems: seq<Problem>)
    requires AskedInRun(r, n, roots, extra, cap, atRoot, who, seen, problems)
    ensures Answered(r, n, who, seen, problems)
  {
    if atRoot {
      var i :| 0 <= i < |extra| && extra[i] == (cap, who);
      assert NeedAnswered(r, extra[i].0, true, extra[i].1, seen, problems);
    } else {
      var i :| 0 <= i < |Needs(r, who)| && Needs(r, who)[i] == cap;
      assert NeedAnswered(r, Needs(r, who)[i], false, who, seen, problems);
    }
  }

  // ── A run that is asked for one thing ────────────────────────────────

  /** From the one root `p`, where packages require nothing, the expression is answered with nothing more to do. */
  ghost predicate AnsweredBy(r: Rules, n: Node, p: string) {
    && r.needs == map[]
    && Answered(r, n, "", {p}, []) && (Monotone(n) ==> Within(r, n, {p}))
    && (forall o :: o in Fired(r, {}, n, {p}) ==> OutcomeAnswered(r, o, "", {p}, []))
  }

  /** Then just the root is what a run can give. */
  lemma AloneRuns(r: Rules, n: Node, cap: string, p: string)
    requires Written(r, cap, n) && AnsweredBy(r, n, p)
    ensures Ran(r, [p], [(cap, "")], {p}, []) && AskedInRun(r, n, [p], [(cap, "")], cap, true, "", {p}, [])
    ensures !Reported(r, n, "", [])
  {
    var extra := [(cap, "")];
    assert forall q :: Needs(r, q) == [];
    assert p in [p] && extra[0] == (cap, "");
    assert NeedAnswered(r, cap, true, "", {p}, []);
    assert NothingDropped(r, [p], extra, {p}, []);
    assert AllMonotone(r, extra, {p}) ==> NeedMonotone(r, extra[0].0);
    assert Monotone(n) ==> ClosedUnder(r, [p], extra, {p});
    var sure := Inevitable(r, [p], extra);
    FiresAtMost(r, sure, n, {p});
    forall o, who | Voiced(r, sure, extra, {p}, o, who) ensures OutcomeAnswered(r, o, who, {p}, []) {
    }
  }

  // ── Packages' requirements do not matter to what settles ─────────────

  ghost predicate Alike(r: Rules, r': Rules) {
    r' == r.(needs := r'.needs)
  }

  lemma {:induction false} SameLeaves(r: Rules, r': Rules, n: Node)
    requires Alike(r, r')
    ensures LeafNames(r, n) == LeafNames(r', n)
    decreases n, 0
  {
    if n.Chain? { SameLeavesAll(r, r', n.children); }
  }

  lemma {:induction false} SameLeavesAll(r: Rules, r': Rules, ns: seq<Node>)
    requires Alike(r, r')
    ensures LeafNamesAll(r, ns) == LeafNamesAll(r', ns)
    decreases ns
  {
    if ns != [] {
      SameLeaves(r, r', ns[0]);
      SameLeavesAll(r, r', ns[1..]);
    }
  }

  lemma {:induction false} SameLive(r: Rules, r': Rules, names: seq<string>)
    requires Alike(r, r')
    ensures Live(r, names) == Live(r', names)
  {
    if names != [] { SameLive(r, r', names[1..]); }
  }

  lemma {:induction false} SameOne(r: Rules, r': Rules, n: Node, p: string)
    requires Alike(r, r')
    ensures OneProvides(r, n, p) <==> OneProvides(r', n, p)
  {
    match n
    case Cap(_) =>
    case Chain(_, children) =>
      forall i | 0 <= i < |children| ensures OneProvides(r, children[i], p) <==> OneProvides(r', children[i], p) {
        SameOne(r, r', children[i], p);
      }
    case Minus(left, right) =>
      SameOne(r, r', left, p);
      SameOne(r, r', right, p);
    case _ =>
  }

  lemma {:induction false} SamePlain(r: Rules, r': Rules, n: Node, s: set<string>)
    requires Alike(r, r')
    ensures Plain(r, n) <==> Plain(r', n)
    ensures Plain(r, n) ==> (Holds(r, n, s) <==> Holds(r', n, s))
  {
    if n.Chain? {
      forall i | 0 <= i < |n.children|
        ensures Plain(r, n.children[i]) <==> Plain(r', n.children[i])
        ensures Plain(r, n.children[i]) ==> (Holds(r, n.children[i], s) <==> Holds(r', n.children[i], s))
      {
        SamePlain(r, r', n.children[i], s);
      }
    }
  }

  lemma SameComes(r: Rules, r': Rules, n: Node)
    requires Alike(r, r') && (IsFixed(n) || (n.Chain? && n.op.Or?))
    ensures Comes(r, n) == Comes(r', n)
  {
    SameLeaves(r, r', n);
    if n.Minus? {
      SameLeaves(r, r', n.left);
      SameLeaves(r, r', n.right);
    }
    if n.Chain? && n.op.Or? && LeafNames(r, n).Some? { SameLive(r, r', LeafNames(r, n).value); }
  }

  lemma SameHolds(r: Rules, r': Rules, n: Node, p: string)
    requires Alike(r, r') && ((IsFixed(n) && !Comes(r, n).Report?) || (n.Chain? && n.op.Or? && Plain(r, n)))
    ensures Holds(r, n, {p}) <==> Holds(r', n, {p})
  {
    SameLeaves(r, r', n);
    if IsFixed(n) {
      SameOne(r, r', n, p);
      assert n.Chain? ==> n.op.With?;
    } else {
      SamePlain(r, r', n, {p});
    }
  }

  lemma SameSettles(r: Rules, r': Rules, n: Node)
    requires Alike(r, r') && (IsFixed(n) || (n.Chain? && n.op.Or? && Plain(r, n)))
    ensures OneSettles(r, n) <==> OneSettles(r', n)
    ensures IsFixed(n) || Plain(r', n)
  {
    SameComes(r, r', n);
    if !IsFixed(n) { SamePlain(r, r', n, {}); }
    if !Comes(r, n).Report? {
      forall p ensures Holds(r, n, {p}) <==> Holds(r', n, {p}) {
        SameHolds(r, r', n, p);
      }
      assert forall o, p :: Settles(r, o, p) <==> Settles(r', o, p);
    }
  }

  // ── What settles it decides ──────────────────────────────────────────

  /** Settled by `p`, the expression is answered with nothing more to do. */
  lemma SettlerAnswers(r: Rules, n: Node, p: string)
    requires (IsFixed(n) || (n.Chain? && n.op.Or?)) && r.needs == map[] && Settles(r, Comes(r, n), p)
    ensures AnsweredBy(r, n, p)
  {
    var o := Comes(r, n);
    assert OutcomeAnswered(r, o, "", {p}, []);
  }

  lemma KeptIfSettled(r: Rules, n: Node)
    requires IsFixed(n) || (n.Chain? && n.op.Or? && Plain(r, n) && Honest(r))
    requires OneSettles(r, n)
    ensures KeptInEveryRun(r, n)
  {
    forall needs, roots, extra, cap, atRoot, who, seen, problems
      | AskedInRun(r.(needs := needs), n, roots, extra, cap, atRoot, who, seen, problems)
      ensures KeptIn(r.(needs := needs), n, who, seen, problems)
    {
      KeptOnce(r, r.(needs := needs), n, roots, extra, cap, atRoot, who, seen, problems);
    }
  }

  lemma KeptOnce(r: Rules, r': Rules, n: Node, roots: seq<string>, extra: seq<(string, string)>, cap: string,
                 atRoot: bool, who: string, seen: set<string>, problems: seq<Problem>)
    requires IsFixed(n) || (n.Chain? && n.op.Or? && Plain(r, n) && Honest(r))
    requires OneSettles(r, n) && Alike(r, r') && AskedInRun(r', n, roots, extra, cap, atRoot, who, seen, problems)
    ensures KeptIn(r', n, who, seen, problems)
  {
    SameSettles(r, r', n);
    AskedIsAnswered(r', n, roots, extra, cap, atRoot, who, seen, problems);
    SettledIsKept(r', n, who, seen, problems);
  }

  /** An expression that comes to one thing is kept in every run exactly when whatever settles it makes it hold. */
  lemma KeptIff(r: Rules, cap: string, n: Node)
    requires Written(r, cap, n)
    requires IsFixed(n) || (n.Chain? && n.op.Or? && Plain(r, n) && Honest(r))
    ensures KeptInEveryRun(r, n) <==> OneSettles(r, n)
  {
    if OneSettles(r, n) {
      KeptIfSettled(r, n);
    } else {
      var r' := r.(needs := map[]);
      SameSettles(r, r', n);
      var p :| Settles(r', Comes(r', n), p) && !Holds(r', n, {p});
      SettlerAnswers(r', n, p);
      AloneRuns(r', n, cap, p);
    }
  }

  /** An `or` of `and`s and capabilities: each package that can settle it makes it hold. */
  lemma OrKeptIff(r: Rules, cap: string, n: Node)
    requires Written(r, cap, n) && Honest(r) && Plain(r, n) && n.Chain? && n.op.Or?
    ensures KeptInEveryRun(r, n) <==> forall p :: Settles(r, OrOutcome(r, n), p) ==> Holds(r, n, {p})
  {
    KeptIff(r, cap, n);
  }

  /** A `with` over capabilities: an override that answers it provides all of it. */
  lemma WithKeptIff(r: Rules, cap: string, n: Node)
    requires Written(r, cap, n) && Trusty(r) && WithOfNames(r, n) && n.Chain?
    ensures KeptInEveryRun(r, n) <==> OverrideFits(r, n)
  {
    KeptIff(r, cap, n);
    WithSettles(r, n);
  }

  /** A `without` over capabilities: the same. */
  lemma WithoutKeptIff(r: Rules, cap: string, n: Node)
    requires Written(r, cap, n) && Honest(r) && n.Minus? && n.left.Cap? && n.right.Cap?
    ensures KeptInEveryRun(r, n) <==> OverrideFits(r, n)
  {
    KeptIff(r, cap, n);
    WithoutSettles(r, n);
  }

  /** Whatever package counts as one of several candidates for a name provides the name. */
  ghost predicate StandsIn(r: Rules, name: string) {
    match r.resolve(name)
    case Ambiguous(candidates) => forall p :: AnyPresent(r, candidates, {p}) ==> p in r.providers(name)
    case _ => true
  }

  /** A capability: whatever counts as a candidate for it provides it. */
  lemma CapKeptIff(r: Rules, cap: string, n: Node)
    requires Written(r, cap, n) && Honest(r) && IsName(r, n)
    ensures KeptInEveryRun(r, n) <==> StandsIn(r, r.strip(n.text))
  {
    var name := r.strip(n.text);
    KeptIff(r, cap, n);
    assert ResolvesTruly(r, r.resolve(name), name, name);
    assert forall p :: Holds(r, n, {p}) <==> p in r.providers(name);
  }

  // ── Conditions ───────────────────────────────────────────────────────

  /** `b` has no override, or each of its other providers provides `a` as well. */
  ghost predicate OthersProvide(r: Rules, b: string, a: string) {
    b in r.overrides ==> forall p :: p in r.providers(b) && p != r.overrides[b] ==> p in r.providers(a)
  }

  /** `(a if b)`: each provider of `b` but an override's answer provides `a`. */
  lemma ConditionalKeptIff(r: Rules, cap: string, a: Node, b: Node)
    requires Written(r, cap, Conditional(If, a, b, None)) && Trusty(r) && IsName(r, a) && b.Cap?
    ensures KeptInEveryRun(r, Conditional(If, a, b, None)) <==> OthersProvide(r, r.strip(b.text), r.strip(a.text))
  {
    if OthersProvide(r, r.strip(b.text), r.strip(a.text)) {
      ConditionalKeptAlways(r, a, b);
    } else {
      var p :| p in r.providers(r.strip(b.text)) && p != r.overrides[r.strip(b.text)] && p !in r.providers(r.strip(a.text));
      var r' := r.(needs := map[]);
      HiddenBy(r', a, b, p);
      AloneRuns(r', Conditional(If, a, b, None), cap, p);
    }
  }

  lemma ConditionalKeptAlways(r: Rules, a: Node, b: Node)
    requires Trusty(r) && IsName(r, a) && b.Cap? && OthersProvide(r, r.strip(b.text), r.strip(a.text))
    ensures KeptInEveryRun(r, Conditional(If, a, b, None))
  {
    var n := Conditional(If, a, b, None);
    forall needs, roots, extra, cap, atRoot, who, seen, problems
      | AskedInRun(r.(needs := needs), n, roots, extra, cap, atRoot, who, seen, problems)
      ensures KeptIn(r.(needs := needs), n, who, seen, problems)
    {
      var r' := r.(needs := needs);
      AskedIsAnswered(r', n, roots, extra, cap, atRoot, who, seen, problems);
      SameTrust(r, r', r.strip(b.text), r.strip(a.text));
      ConditionalKept(r', a, b, who, seen, problems);
    }
  }

  lemma SameTrust(r: Rules, r': Rules, b: string, a: string)
    requires Alike(r, r') && Trusty(r) && OthersProvide(r, b, a)
    ensures Trusty(r') && OthersProvide(r', b, a)
  {
  }

  /** Another provider than the override's answer makes the condition true, and the solver does not see it. */
  lemma HiddenBy(r: Rules, a: Node, b: Node, p: string)
    requires a.Cap? && b.Cap? && r.strip(b.text) in r.overrides && r.needs == map[]
    requires p in r.providers(r.strip(b.text)) && p != r.overrides[r.strip(b.text)] && p !in r.providers(r.strip(a.text))
    ensures var n := Conditional(If, a, b, None); AnsweredBy(r, n, p) && !Holds(r, n, {p})
  {
    assert !Satisfied(r, b, {p});
    NotRequired(r, {}, a, b, {p});
    assert Provided(r, r.strip(b.text), {p}) && True(r, b, {p});
    assert !Holds(r, a, {p});
  }

  lemma ConditionalKept(r: Rules, a: Node, b: Node, who: string, s: set<string>, problems: seq<Problem>)
    requires Trusty(r) && IsName(r, a) && b.Cap? && OthersProvide(r, r.strip(b.text), r.strip(a.text))
    requires Answered(r, Conditional(If, a, b, None), who, s, problems)
    ensures KeptIn(r, Conditional(If, a, b, None), who, s, problems)
  {
    var n, name := Conditional(If, a, b, None), r.strip(b.text);
    assert May(r, a) <= May(r, n);
    assert True(r, b, s) <==> Provided(r, name, s);
    assert Satisfied(r, b, s) <==> Present(r, name, s);
    if Answered(r, a, who, s, problems) {
      AnsweredHolds(r, a, who, s, problems);
    } else if Provided(r, name, s) {
      var p :| p in s && p in r.providers(name);
      assert name !in r.overrides ==> Present(r, name, s) by {
        var i :| 0 <= i < |r.providers(name)| && r.providers(name)[i] == p;
      }
      assert p in r.providers(r.strip(a.text));
      assert Holds(r, a, s);
    }
  }

  // ── And the run that shows it can give nothing else ──────────────────

  /** Asked for one thing that `p` settles, a run from `p` ends with `p`, and with nothing to report. */
  lemma SettledRun(r: Rules, n: Node, cap: string, p: string, seen: set<string>, problems: seq<Problem>)
    requires Written(r, cap, n) && r.needs == map[] && (IsFixed(n) || (n.Chain? && n.op.Or?)) && UnlessFree(n)
    requires Settles(r, Comes(r, n), p)
    requires Comes(r, n).Ask? ==> Comes(r, n).expression !in r.overrides
    requires Ran(r, [p], [(cap, "")], seen, problems)
    ensures seen == {p} && problems == []
  {
    var o, extra := Comes(r, n), [(cap, "")];
    assert problems == [] || problems[0] in problems;
    VoicedOnce(r, Inevitable(r, [p], extra), n, cap, seen);
    assert [p][0] in seen;
    forall q | q in seen ensures q == p {
      assert Wanted(r, [p], extra, seen, q);
    }
    assert AllUnlessFree(r, extra, seen) by {
      assert extra[0].0 == cap;
    }
    assert o.Ask? ==> AnyPresent(r, o.alternatives, seen);
  }

  lemma VoicedOnce(r: Rules, sure: set<string>, n: Node, cap: string, seen: set<string>)
    requires Written(r, cap, n) && r.needs == map[] && (IsFixed(n) || (n.Chain? && n.op.Or?))
    ensures forall o, who :: Voiced(r, sure, [(cap, "")], seen, o, who) ==> o == Comes(r, n) && who == ""
    ensures forall q :: Needs(r, q) == []
  {
    assert [(cap, "")][0] == (cap, "");
    FiredGrows(r, sure, n, seen, seen);
    assert May(r, n) == {Comes(r, n)};
  }
}
