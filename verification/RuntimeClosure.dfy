/** `runtime_closure`: the lists it grows and the loops that settle them. */
module RuntimeClosure {
  import opened Options
  import opened TextOrder
  import opened BooleanDeps
  import opened ClosureRules
  import opened ClosureInvariant
  import opened ClosureFixpoint
  import opened ClosureBranches
  import opened ClosureRun

  ghost function Elements(xs: seq<string>): set<string> {
    set x | x in xs
  }

  lemma ElementsAppend(xs: seq<string>, ys: seq<string>)
    ensures Elements(xs + ys) == Elements(xs) + Elements(ys)
  {
  }

  lemma Popped(seen: set<string>, frontier: seq<string>)
    requires frontier != []
    ensures var front, pkg := frontier[..|frontier| - 1], frontier[|frontier| - 1];
      && (pkg in seen ==> seen + Elements(front) == seen + Elements(frontier))
      && (pkg !in seen ==> (seen + {pkg}) + Elements(front) == seen + Elements(frontier) && (seen + {pkg}) - {pkg} == seen)
  {
    var front, pkg := frontier[..|frontier| - 1], frontier[|frontier| - 1];
    assert frontier == front + [pkg];
    ElementsAppend(front, [pkg]);
  }

  /** An answered expression makes the waiting list lighter, whatever it sets aside. */
  lemma RetryShrinks(r: Rules, s: set<string>, pd: Pending, tail: seq<Pending>, final: bool)
    ensures Weight(tail + Demand(r, s, pd.node, pd.who, final).pending) < Weight([pd] + tail)
  {
    DemandShrinks(r, s, pd.node, pd.who, final);
    WeightAppend(tail, Demand(r, s, pd.node, pd.who, final).pending);
    assert ([pd] + tail)[1..] == tail;
  }

  /** One conjunct more. */
  lemma DemandAllStep(r: Rules, s: set<string>, acc: Effect, ns: seq<Node>, who: string, final: bool)
    requires acc.got.Some? && ns != []
    ensures Then(acc, DemandAll(r, s, ns, who, final))
         == Then(Then(acc, Await(Demand(r, s, ns[0], who, final), ns[0], who)), DemandAll(r, s, ns[1..], who, final))
  {
    var b, c := Await(Demand(r, s, ns[0], who, final), ns[0], who), DemandAll(r, s, ns[1..], who, final);
    assert acc.got.value + (b.got.value + c.got.value) == acc.got.value + b.got.value + c.got.value;
    assert acc.pending + (b.pending + c.pending) == acc.pending + b.pending + c.pending;
    assert acc.choices + (b.choices + c.choices) == acc.choices + b.choices + c.choices;
    assert acc.problems + (b.problems + c.problems) == acc.problems + b.problems + c.problems;
  }

  /** What one conjunct adds to the lists. */
  lemma StepRecorded(acc: Effect, e: Effect, n: Node, who: string, ps: seq<Pending>, cs: seq<Choice>, qs: seq<Problem>)
    requires acc.got.Some?
    ensures var next := Then(acc, Await(e, n, who));
      && next.got == Some(if e.got.Some? then acc.got.value + e.got.value else acc.got.value)
      && ps + next.pending == ps + acc.pending + e.pending + (if e.got.Some? then [] else [Pending(n, who)])
      && cs + next.choices == cs + acc.choices + e.choices
      && qs + next.problems == qs + acc.problems + e.problems
  {
    var next := Then(acc, Await(e, n, who));
    assert acc.got.value + [] == acc.got.value;
  }

  lemma ThenNothing(e: Effect)
    requires e.got.Some?
    ensures Then(NOTHING, e) == e && Then(e, NOTHING) == e
  {
    assert [] + e.got.value == e.got.value && e.got.value + [] == e.got.value;
    assert [] + e.pending == e.pending && e.pending + [] == e.pending;
    assert [] + e.choices == e.choices && e.choices + [] == e.choices;
    assert [] + e.problems == e.problems && e.problems + [] == e.problems;
  }

  /** What holds between any two steps of a run. */
  ghost predicate Kept(r: Rules, roots: seq<string>, extra: seq<(string, string)>, done: nat, visited: set<string>,
                       b: Books)
  {
    InBounds(r, roots, extra, b) && Accounted(r, roots, extra, done, visited, b)
  }

  lemma KeptAtStart(r: Rules, roots: seq<string>, extra: seq<(string, string)>)
    ensures Kept(r, roots, extra, 0, {}, Books(Elements(roots), [], [], []))
  {
  }

  lemma KeptExtra(r: Rules, roots: seq<string>, extra: seq<(string, string)>, s: set<string>, b: Books, i: nat)
    requires Kept(r, roots, extra, i, {}, b) && s <= b.reached && i < |extra|
    ensures Kept(r, roots, extra, i + 1, {}, After(b, DemandNeed(r, s, extra[i].0, true, extra[i].1)))
  {
    ExtraStep(r, roots, extra, s, b, i);
    AccountedAdvances(r, roots, extra, i, {}, b, After(b, DemandNeed(r, s, extra[i].0, true, extra[i].1)));
  }

  /** What holds while the requirements of `pkg` are read, the first `i` of them done. */
  ghost predicate KeptVisiting(r: Rules, roots: seq<string>, extra: seq<(string, string)>, seen: set<string>,
                               pkg: string,
                               i: nat, b: Books)
  {
    && Kept(r, roots, extra, |extra|, seen - {pkg}, b)
    && forall k :: 0 <= k < i && k < |Needs(r, pkg)| ==> NeedCovered(r, Needs(r, pkg)[k], false, pkg, b)
  }

  lemma KeptNeed(r: Rules, roots: seq<string>, extra: seq<(string, string)>, seen: set<string>, pkg: string, i: nat,
                 b: Books)
    requires KeptVisiting(r, roots, extra, seen, pkg, i, b)
    requires seen <= b.reached && pkg in seen && i < |Needs(r, pkg)|
    ensures KeptVisiting(r, roots, extra, seen, pkg, i + 1, After(b, DemandNeed(r, seen, Needs(r, pkg)[i], false, pkg)))
  {
    var c := After(b, DemandNeed(r, seen, Needs(r, pkg)[i], false, pkg));
    NeedStep(r, roots, extra, seen, b, pkg, i);
    AccountedAdvances(r, roots, extra, |extra|, seen - {pkg}, b, c);
    forall k | 0 <= k < i ensures NeedCovered(r, Needs(r, pkg)[k], false, pkg, c) {
      NeedAdvances(r, Needs(r, pkg)[k], false, pkg, b, c);
    }
  }

  lemma KeptVisited(r: Rules, roots: seq<string>, extra: seq<(string, string)>, seen: set<string>, pkg: string,
                    b: Books)
    requires KeptVisiting(r, roots, extra, seen, pkg, |Needs(r, pkg)|, b)
    ensures Kept(r, roots, extra, |extra|, seen, b)
  {
  }

  lemma KeptRetry(r: Rules, roots: seq<string>, extra: seq<(string, string)>, seen: set<string>, b: Books,
                  still: seq<Pending>, pd: Pending, rest: seq<Pending>, final: bool)
    requires final ==> Inevitable(r, roots, extra) <= seen
    requires Kept(r, roots, extra, |extra|, seen, b) && seen <= b.reached && b.pending == still + [pd] + rest
    ensures Kept(r, roots, extra, |extra|, seen,
                 Retried(b, still, rest, pd, Demand(r, seen, pd.node, pd.who, final)))
  {
    RetryStep(r, roots, extra, seen, b, still, pd, rest, final);
    AccountedAdvances(r, roots, extra, |extra|, seen, b,
                      Retried(b, still, rest, pd, Demand(r, seen, pd.node, pd.who, final)));
  }

  lemma KeptReview(r: Rules, roots: seq<string>, extra: seq<(string, string)>, seen: set<string>, b: Books,
                   still: seq<Choice>, ch: Choice, rest: seq<Choice>)
    requires Kept(r, roots, extra, |extra|, seen, b) && seen <= b.reached && b.choices == still + [ch] + rest
    ensures Kept(r, roots, extra, |extra|, seen, Reviewed(r, seen, b, still, ch, rest))
  {
    ReviewStep(r, roots, extra, seen, b, still, ch, rest);
    AccountedAdvances(r, roots, extra, |extra|, seen, b, Reviewed(r, seen, b, still, ch, rest));
  }

  /** Every waiting expression still has to wait, and asking it again records nothing. */
  ghost predicate AllWait(r: Rules, s: set<string>, ps: seq<Pending>, final: bool) {
    forall i :: 0 <= i < |ps| ==> Demand(r, s, ps[i].node, ps[i].who, final) == LATER
  }

  lemma Uncons(still: seq<Pending>, ps: seq<Pending>, i: nat, rest: seq<Pending>)
    requires i < |ps| && rest == ps[i..]
    ensures still + rest == still + [ps[i]] + rest[1..] && rest == [ps[i]] + rest[1..]
    ensures forall more :: rest[1..] + more == (ps + more)[i + 1..]
  {
  }

  lemma UnconsChoice(still: seq<Choice>, cs: seq<Choice>, i: nat, rest: seq<Choice>)
    requires i < |cs| && rest == cs[i..]
    ensures still + rest == still + [cs[i]] + rest[1..] && rest[1..] == cs[i + 1..]
  {
  }

  lemma AllWaitStep(r: Rules, s: set<string>, still: seq<Pending>, pd: Pending, tail: seq<Pending>, final: bool)
    requires AllWait(r, s, still, final)
    ensures var e := Demand(r, s, pd.node, pd.who, final);
      && (e.got.None? ==> AllWait(r, s, still + [pd], final))
      && (AllWait(r, s, [pd] + tail, final) ==>
            e == LATER && AllWait(r, s, tail + e.pending, final) && still + [pd] + (tail + e.pending) == still + ([pd] + tail))
  {
    DemandNoneIsEmpty(r, s, pd.node, pd.who, final);
    if AllWait(r, s, [pd] + tail, final) {
      assert Demand(r, s, ([pd] + tail)[0].node, ([pd] + tail)[0].who, final) == LATER;
      assert forall i :: 0 <= i < |tail| ==> tail[i] == ([pd] + tail)[i + 1];
    }
  }

  /** Choices nothing in the closure meets and no override decides. */
  ghost predicate Open(r: Rules, choices: seq<Choice>, s: set<string>) {
    forall ch :: ch in choices ==> !AnyPresent(r, ch.alternatives, s) && ch.expression !in r.overrides
  }

  /** Without `unless`, an expression that waits also waits in the last pass. */
  lemma WaitsInTheEnd(r: Rules, s: set<string>, ps: seq<Pending>)
    requires WaitsUnlessFree(ps) && AllWait(r, s, ps, false)
    ensures AllWait(r, s, ps, true)
  {
    forall i | 0 <= i < |ps| ensures Demand(r, s, ps[i].node, ps[i].who, true) == LATER {
      DemandUnlessFree(r, s, ps[i].node, ps[i].who, false);
    }
  }

  // ── Reporting ────────────────────────────────────────────────────────

  ghost predicate AskedBy(choices: seq<Choice>, expression: string, who: string) {
    exists ch :: ch in choices && ch.expression == expression && ch.who == who
  }

  /** The alternatives are those of the first choice with this text. */
  ghost predicate FirstStated(choices: seq<Choice>, expression: string, alternatives: seq<string>) {
    exists k :: 0 <= k < |choices| && choices[k].expression == expression && choices[k].alternatives == alternatives
                && forall j :: 0 <= j < k ==> choices[j].expression != expression
  }

  /** One entry per text: its first alternatives, and exactly those who asked. */
  ghost predicate Grouped(choices: seq<Choice>, groups: map<string, (seq<string>, set<string>)>) {
    && (forall ch :: ch in choices ==> ch.expression in groups)
    && (forall e, w :: e in groups ==> (w in groups[e].1 <==> AskedBy(choices, e, w)))
    && (forall e :: e in groups ==> FirstStated(choices, e, groups[e].0))
  }

  lemma GroupedStep(choices: seq<Choice>, groups: map<string, (seq<string>, set<string>)>, ch: Choice)
    requires Grouped(choices, groups)
    ensures var entry := if ch.expression in groups then groups[ch.expression] else (ch.alternatives, {});
      Grouped(choices + [ch], groups[ch.expression := (entry.0, entry.1 + {ch.who})])
  {
    var entry := if ch.expression in groups then groups[ch.expression] else (ch.alternatives, {});
    var next := groups[ch.expression := (entry.0, entry.1 + {ch.who})];
    var more := choices + [ch];
    assert more[|choices|] == ch;
    forall e, w | e in next ensures w in next[e].1 <==> AskedBy(more, e, w) {
      assert AskedBy(more, e, w) <==> AskedBy(choices, e, w) || (e == ch.expression && w == ch.who);
    }
    forall e | e in next ensures FirstStated(more, e, next[e].0) {
      if e in groups {
        var k :| 0 <= k < |choices| && choices[k].expression == e && choices[k].alternatives == groups[e].0
                 && forall j :: 0 <= j < k ==> choices[j].expression != e;
        assert more[k] == choices[k];
      } else {
        assert forall j :: 0 <= j < |choices| ==> choices[j] in choices && more[j] == choices[j];
      }
    }
  }

  /** A choice reported once, with everyone who asked. */
  ghost predicate IsReport(choices: seq<Choice>, q: Problem) {
    && q.Undecided? && Ascending(q.askers) && FirstStated(choices, q.expression, q.alternatives)
    && (forall w :: w in q.askers <==> AskedBy(choices, q.expression, w))
  }

  /** The reports in order of their texts, none twice. */
  ghost predicate Reports(choices: seq<Choice>, reports: seq<Problem>) {
    && (forall i :: 0 <= i < |reports| ==> IsReport(choices, reports[i]))
    && (forall i, j :: 0 <= i < j < |reports| ==> Less(reports[i].expression, reports[j].expression))
    && (forall ch :: ch in choices ==> ReportedUndecided(reports, ch.expression, ch.who))
  }

  /** Every choice still open, grouped by its text. */
  method ReportChoices(choices: seq<Choice>) returns (reports: seq<Problem>)
    ensures Reports(choices, reports)
  {
    var groups: map<string, (seq<string>, set<string>)> := map[];
    for i := 0 to |choices|
      invariant Grouped(choices[..i], groups)
    {
      var ch := choices[i];
      GroupedStep(choices[..i], groups, ch);
      assert choices[..i + 1] == choices[..i] + [ch];
      var entry := if ch.expression in groups then groups[ch.expression] else (ch.alternatives, {});
      groups := groups[ch.expression := (entry.0, entry.1 + {ch.who})];
    }
    assert choices[..|choices|] == choices;
    var expressions := SortSet(groups.Keys);
    reports := [];
    for i := 0 to |expressions|
      invariant |reports| == i
      invariant forall k :: 0 <= k < i ==> reports[k].Undecided? && reports[k].expression == expressions[k]
      invariant forall k :: 0 <= k < i ==> IsReport(choices, reports[k])
    {
      var e := expressions[i];
      assert e in groups;
      var askers := SortSet(groups[e].1);
      reports := reports + [Undecided(e, groups[e].0, askers)];
    }
    forall ch | ch in choices ensures ReportedUndecided(reports, ch.expression, ch.who) {
      assert AskedBy(choices, ch.expression, ch.who);
      var k :| 0 <= k < |expressions| && expressions[k] == ch.expression;
      assert reports[k] in reports && ch.who in reports[k].askers;
    }
  }

  // ── What the closure is ──────────────────────────────────────────────

  /** Everything a root, a root requirement or a package of the closure asks for is granted or reported. */
  ghost predicate NothingDropped(r: Rules, roots: seq<string>, extra: seq<(string, string)>, seen: set<string>,
                                 problems: seq<Problem>)
  {
    && (forall p :: p in roots ==> p in seen)
    && (forall i :: 0 <= i < |extra| ==> NeedAnswered(r, extra[i].0, true, extra[i].1, seen, problems))
    && (forall p, i :: p in seen && 0 <= i < |Needs(r, p)| ==>
          NeedAnswered(r, Needs(r, p)[i], false, p, seen, problems))
  }

  /**
   * Every problem is what a requirement of the one who asked has come to, by
   * branches that were taken, and so is every choice, for each who asked.
   */
  ghost predicate NothingInvented(r: Rules, roots: seq<string>, extra: seq<(string, string)>, seen: set<string>,
                                  problems: seq<Problem>)
  {
    var sure := Inevitable(r, roots, extra);
    forall q :: q in problems ==>
      match q
      case Problem(issue, who) => Voiced(r, sure, extra, seen, Report(issue), who)
      case Undecided(e, alternatives, askers) =>
        && (exists w :: w in askers && Voiced(r, sure, extra, seen, Ask(e, alternatives), w))
        && (forall w :: w in askers ==> exists a :: Voiced(r, sure, extra, seen, Ask(e, a), w))
  }

  lemma ConcludeInvented(r: Rules, roots: seq<string>, extra: seq<(string, string)>, b: Books, reports: seq<Problem>)
    requires Bounded(r, roots, extra, b) && Reports(b.choices, reports)
    ensures NothingInvented(r, roots, extra, b.reached, b.problems + reports)
  {
    var sure := Inevitable(r, roots, extra);
    forall q | q in reports
      ensures exists w :: w in q.askers && Voiced(r, sure, extra, b.reached, Ask(q.expression, q.alternatives), w)
      ensures forall w :: w in q.askers ==> exists a :: Voiced(r, sure, extra, b.reached, Ask(q.expression, a), w)
    {
      assert FirstStated(b.choices, q.expression, q.alternatives);
      var k :| 0 <= k < |b.choices| && b.choices[k].expression == q.expression
               && b.choices[k].alternatives == q.alternatives;
      assert b.choices[k] in b.choices && AskedBy(b.choices, q.expression, b.choices[k].who);
      forall w | w in q.askers ensures exists a :: Voiced(r, sure, extra, b.reached, Ask(q.expression, a), w) {
        assert AskedBy(b.choices, q.expression, w);
        var ch :| ch in b.choices && ch.expression == q.expression && ch.who == w;
        assert Voiced(r, sure, extra, b.reached, Ask(q.expression, ch.alternatives), w);
      }
    }
  }

  /** Open choices come last, each text once, in order. */
  ghost predicate ChoicesLast(problems: seq<Problem>) {
    forall i, j :: 0 <= i < j < |problems| && problems[i].Undecided? ==>
      problems[j].Undecided? && Less(problems[i].expression, problems[j].expression)
  }

  /** A choice is reported only if nothing in the closure meets it. */
  ghost predicate ReportsStand(r: Rules, seen: set<string>, problems: seq<Problem>) {
    forall q :: q in problems && q.Undecided? ==>
      !AnyPresent(r, q.alternatives, seen) && q.expression !in r.overrides
  }

  lemma ConcludeReports(r: Rules, roots: seq<string>, extra: seq<(string, string)>, b: Books, reports: seq<Problem>)
    requires Bounded(r, roots, extra, b) && Reports(b.choices, reports)
    ensures ChoicesLast(b.problems + reports)
    ensures Open(r, b.choices, b.reached) ==> ReportsStand(r, b.reached, b.problems + reports)
  {
    var problems, s := b.problems + reports, b.reached;
    assert forall i :: 0 <= i < |b.problems| ==> problems[i] == b.problems[i] && problems[i] in b.problems;
    if Open(r, b.choices, s) {
      forall q | q in problems && q.Undecided? ensures !AnyPresent(r, q.alternatives, s) && q.expression !in r.overrides {
        assert q in reports;
        assert FirstStated(b.choices, q.expression, q.alternatives);
      }
    }
  }

  lemma ConcludeAnswered(r: Rules, roots: seq<string>, extra: seq<(string, string)>, b: Books, reports: seq<Problem>)
    requires Kept(r, roots, extra, |extra|, b.reached, b) && AllWait(r, b.reached, b.pending, true)
    requires Reports(b.choices, reports)
    ensures NothingDropped(r, roots, extra, b.reached, b.problems + reports)
  {
    var problems, s := b.problems + reports, b.reached;
    assert Closing(r, b, problems);
    forall i | 0 <= i < |extra| ensures NeedAnswered(r, extra[i].0, true, extra[i].1, s, problems) {
      NeedIsAnswered(r, extra[i].0, true, extra[i].1, b, problems);
    }
    forall p, i | p in s && 0 <= i < |Needs(r, p)| ensures NeedAnswered(r, Needs(r, p)[i], false, p, s, problems) {
      NeedIsAnswered(r, Needs(r, p)[i], false, p, b, problems);
    }
  }

  /** Whatever somebody's requirement has come to is granted or reported. */
  ghost predicate AllDealtWith(r: Rules, sure: set<string>, extra: seq<(string, string)>, seen: set<string>,
                               problems: seq<Problem>)
  {
    forall o, who :: Voiced(r, sure, extra, seen, o, who) ==> OutcomeAnswered(r, o, who, seen, problems)
  }

  lemma ConcludeDealtWith(r: Rules, sure: set<string>, roots: seq<string>, extra: seq<(string, string)>,
                          seen: set<string>,
                          problems: seq<Problem>)
    requires NothingDropped(r, roots, extra, seen, problems) && AllMonotone(r, extra, seen)
    ensures AllDealtWith(r, sure, extra, seen, problems)
  {
    forall o, who | Voiced(r, sure, extra, seen, o, who) ensures OutcomeAnswered(r, o, who, seen, problems) {
      if i :| 0 <= i < |extra| && extra[i].1 == who && o in FiredNeed(r, sure, extra[i].0, true, seen) {
        NeedFiredIsAnswered(r, sure, extra[i].0, true, who, seen, problems, o);
      } else {
        var i :| 0 <= i < |Needs(r, who)| && o in FiredNeed(r, sure, Needs(r, who)[i], false, seen);
        NeedFiredIsAnswered(r, sure, Needs(r, who)[i], false, who, seen, problems, o);
      }
    }
  }

  /** What a run gives. */
  ghost predicate Ran(r: Rules, roots: seq<string>, extra: seq<(string, string)>, seen: set<string>,
                      problems: seq<Problem>)
  {
    && seen <= Universe(r, roots, extra)
    && (forall p :: p in seen ==> Wanted(r, roots, extra, seen, p))
    && NothingDropped(r, roots, extra, seen, problems)
    && NothingInvented(r, roots, extra, seen, problems) && ChoicesLast(problems)
    && (AllMonotone(r, extra, seen) && ChoicesStand(r) ==> LeastClosed(r, roots, extra, seen))
    && (AllMonotone(r, extra, seen) ==> AllDealtWith(r, Inevitable(r, roots, extra), extra, seen, problems))
    && (AllUnlessFree(r, extra, seen) ==> ReportsStand(r, seen, problems))
  }

  /** In the monotone fragment the reports of what cannot be had do not depend on the order of anything either. */
  lemma SameReports(r: Rules, roots: seq<string>, extra: seq<(string, string)>, seen: set<string>,
                    problems: seq<Problem>,
                    roots': seq<string>, extra': seq<(string, string)>, seen': set<string>, problems': seq<Problem>)
    requires Ran(r, roots, extra, seen, problems) && Ran(r, roots', extra', seen', problems') && ChoicesStand(r)
    requires AllMonotone(r, extra, seen) && AllMonotone(r, extra', seen')
    requires (forall p :: p in roots <==> p in roots') && forall x :: x in extra <==> x in extra'
    ensures seen == seen'
    ensures forall issue, who :: Problem(issue, who) in problems <==> Problem(issue, who) in problems'
  {
    LeastClosedUnique(r, roots, extra, seen, roots', extra', seen');
    forall issue, who ensures Problem(issue, who) in problems <==> Problem(issue, who) in problems' {
      ExactReports(r, roots, extra, seen, problems, issue, who);
      ExactReports(r, roots', extra', seen', problems', issue, who);
      var sure, sure' := Inevitable(r, roots, extra), Inevitable(r, roots', extra');
      SameVoices(r, sure, sure', extra, extra', seen, Report(issue), who);
      SameVoices(r, sure', sure, extra', extra, seen, Report(issue), who);
    }
  }

  /** In the monotone fragment exactly what somebody's requirement has come to is reported. */
  lemma ExactReports(r: Rules, roots: seq<string>, extra: seq<(string, string)>, seen: set<string>,
                     problems: seq<Problem>,
                     issue: Issue, who: string)
    requires Ran(r, roots, extra, seen, problems) && AllMonotone(r, extra, seen)
    ensures Problem(issue, who) in problems <==> Voiced(r, Inevitable(r, roots, extra), extra, seen, Report(issue), who)
  {
  }

  lemma SameVoices(r: Rules, sure: set<string>, sure': set<string>, extra: seq<(string, string)>,
                   extra': seq<(string, string)>, s: set<string>, o: Outcome, who: string)
    requires (forall x :: x in extra ==> x in extra') && AllMonotone(r, extra, s)
    ensures Voiced(r, sure, extra, s, o, who) ==> Voiced(r, sure', extra', s, o, who)
  {
    if i :| 0 <= i < |extra| && extra[i].1 == who && o in FiredNeed(r, sure, extra[i].0, true, s) {
      NeedFiresAlike(r, sure, sure', extra[i].0, true, s);
      assert extra[i] in extra;
      var j :| 0 <= j < |extra'| && extra'[j] == extra[i];
    } else if i :| who in s && 0 <= i < |Needs(r, who)| && o in FiredNeed(r, sure, Needs(r, who)[i], false, s) {
      NeedFiresAlike(r, sure, sure', Needs(r, who)[i], false, s);
    }
  }

  // ── What `unless` is let off by ──────────────────────────────────────

  /** Roots are sure to be there, and so is what those that are sure require without condition. */
  lemma SureByRequirement(r: Rules, roots: seq<string>, extra: seq<(string, string)>, who: string, i: nat, p: string)
    ensures who in roots ==> who in Inevitable(r, roots, extra)
    ensures who in Inevitable(r, roots, extra) && i < |Needs(r, who)| && !r.rich(r.strip(Needs(r, who)[i]))
            && PlainOutcome(r, Needs(r, who)[i], false) == Take(p) ==>
      p in Inevitable(r, roots, extra)
  {
    assert who in roots ==> InEvery(r, roots, extra, who);
    if who in Inevitable(r, roots, extra) && i < |Needs(r, who)| {
      var cap := Needs(r, who)[i];
      if !r.rich(r.strip(cap)) && PlainOutcome(r, cap, false) == Take(p) {
        assert Take(p) in MayNeed(r, r.needs[who][i], false);
        forall t | ClosedUnder(r, roots, extra, t) ensures p in t {
          assert InEvery(r, roots, extra, who) && NeedWithin(r, Needs(r, who)[i], false, t);
        }
        assert InEvery(r, roots, extra, p);
      }
    }
  }

  /** The requirement is an `unless` whose condition is met by what is sure. */
  ghost predicate LetOff(r: Rules, sure: set<string>, cap: string) {
    && r.rich(r.strip(cap)) && r.read(r.strip(cap)).Some?
    && var n := r.read(r.strip(cap)).value;
    n.Conditional? && n.op.Unless? && n.other.None? && Positive(n.cond) && Satisfied(r, n.cond, sure)
  }

  /** A package that only such requirements could ask for stays out, whatever the order of the work. */
  lemma ExcusedStaysOut(r: Rules, roots: seq<string>, extra: seq<(string, string)>, seen: set<string>,
                        problems: seq<Problem>, p: string)
    requires Ran(r, roots, extra, seen, problems) && p !in roots && p !in r.overrides.Values
    requires forall cap, atRoot, who :: Asks(r, extra, seen, cap, atRoot, who) && Take(p) in MayNeed(r, cap, atRoot) ==>
      LetOff(r, Inevitable(r, roots, extra), cap)
    ensures p !in seen
  {
    var sure := Inevitable(r, roots, extra);
    forall who ensures !Voiced(r, sure, extra, seen, Take(p), who) {
      if Voiced(r, sure, extra, seen, Take(p), who) { VoicedByNeed(r, sure, extra, seen, p, who); }
    }
    assert p in seen ==> Wanted(r, roots, extra, seen, p);
  }

  lemma VoicedByNeed(r: Rules, sure: set<string>, extra: seq<(string, string)>, seen: set<string>, p: string,
                     who: string)
    requires Voiced(r, sure, extra, seen, Take(p), who)
    ensures exists cap, atRoot :: Asks(r, extra, seen, cap, atRoot, who) && Take(p) in MayNeed(r, cap, atRoot)
                                  && !LetOff(r, sure, cap)
  {
    if i :| 0 <= i < |extra| && extra[i].1 == who && Take(p) in FiredNeed(r, sure, extra[i].0, true, seen) {
      FiredIsNotLetOff(r, sure, extra[i].0, true, seen, p);
      assert extra[i] == (extra[i].0, who) && Asks(r, extra, seen, extra[i].0, true, who);
    } else {
      var i :| 0 <= i < |Needs(r, who)| && Take(p) in FiredNeed(r, sure, Needs(r, who)[i], false, seen);
      FiredIsNotLetOff(r, sure, Needs(r, who)[i], false, seen, p);
      assert Asks(r, extra, seen, Needs(r, who)[i], false, who);
    }
  }

  lemma FiredIsNotLetOff(r: Rules, sure: set<string>, cap: string, atRoot: bool, seen: set<string>, p: string)
    requires Take(p) in FiredNeed(r, sure, cap, atRoot, seen)
    ensures Take(p) in MayNeed(r, cap, atRoot) && !LetOff(r, sure, cap)
  {
    NeedGrows(r, sure, cap, atRoot, seen, seen);
    if LetOff(r, sure, cap) {
      var n := r.read(r.strip(cap)).value;
      Excused(r, sure, n.then_, n.cond, seen);
    }
  }

  lemma Conclude(r: Rules, roots: seq<string>, extra: seq<(string, string)>, b: Books, reports: seq<Problem>)
    requires Kept(r, roots, extra, |extra|, b.reached, b) && AllWait(r, b.reached, b.pending, true)
    requires Reports(b.choices, reports)
    ensures Open(r, b.choices, b.reached) || !AllUnlessFree(r, extra, b.reached) ==>
      Ran(r, roots, extra, b.reached, b.problems + reports)
  {
    ConcludeAnswered(r, roots, extra, b, reports);
    ConcludeInvented(r, roots, extra, b, reports);
    ConcludeReports(r, roots, extra, b, reports);
    if AllMonotone(r, extra, b.reached) {
      ConcludeDealtWith(r, Inevitable(r, roots, extra), roots, extra, b.reached, b.problems + reports);
      if ChoicesStand(r) { ConcludeLeast(r, roots, extra, b); }
    }
  }

  /** With the frontier empty and nothing that can fire, what has been reached is closed. */
  lemma QuietIsClosed(r: Rules, roots: seq<string>, extra: seq<(string, string)>, b: Books, final: bool)
    requires Kept(r, roots, extra, |extra|, b.reached, b) && AllWait(r, b.reached, b.pending, final)
    ensures ClosedUnder(r, roots, extra, b.reached)
  {
    forall i | 0 <= i < |extra| ensures NeedWithin(r, extra[i].0, true, b.reached) {
      NeedIsWithin(r, extra[i].0, true, extra[i].1, b, final);
    }
    forall p, i | p in b.reached && 0 <= i < |Needs(r, p)| ensures NeedWithin(r, Needs(r, p)[i], false, b.reached) {
      NeedIsWithin(r, Needs(r, p)[i], false, p, b, final);
    }
  }

  /** So whatever is sure has been reached before any `unless` is given up on. */
  lemma LastPass(r: Rules, roots: seq<string>, extra: seq<(string, string)>, seen: set<string>, b: Books)
    requires Kept(r, roots, extra, |extra|, seen, b) && b.reached == seen && AllWait(r, seen, b.pending, false)
    ensures Inevitable(r, roots, extra) <= seen
    ensures AllUnlessFree(r, extra, seen) ==> AllWait(r, seen, b.pending, true)
  {
    QuietIsClosed(r, roots, extra, b, false);
    InevitableIsInside(r, roots, extra, seen);
    if AllUnlessFree(r, extra, seen) { WaitsInTheEnd(r, seen, b.pending); }
  }

  lemma ConcludeLeast(r: Rules, roots: seq<string>, extra: seq<(string, string)>, b: Books)
    requires Kept(r, roots, extra, |extra|, b.reached, b) && AllWait(r, b.reached, b.pending, true)
    requires AllMonotone(r, extra, b.reached) && ChoicesStand(r)
    ensures LeastClosed(r, roots, extra, b.reached)
  {
    QuietIsClosed(r, roots, extra, b, true);
    forall t | ClosedUnder(r, roots, extra, t) ensures b.reached <= t {
      assert Sound(r, b, t);
    }
  }

  class Run {
    const r: Rules
    var seen: set<string>
    var frontier: seq<string>
    var pending: seq<Pending>
    var choices: seq<Choice>
    var problems: seq<Problem>

    ghost function Ledger(): Books
      reads this
    {
      Books(seen + Elements(frontier), pending, choices, problems)
    }

    /** The books with other expressions waiting: those still to be asked again and those that wait on. */
    ghost function LedgerWaiting(waiting: seq<Pending>): Books
      reads this
    {
      Books(seen + Elements(frontier), waiting, choices, problems)
    }

    ghost function LedgerOpen(open: seq<Choice>): Books
      reads this
    {
      Books(seen + Elements(frontier), pending, open, problems)
    }

    constructor (r: Rules, roots: seq<string>)
      ensures this.r == r
      ensures seen == {} && frontier == roots && pending == [] && choices == [] && problems == []
    {
      this.r := r;
      seen, frontier, pending, choices, problems := {}, roots, [], [], [];
    }

    // ── Asking ─────────────────────────────────────────────────────────

    /** Record one outcome. */
    method Settle(o: Outcome, who: string) returns (got: seq<string>)
      modifies this`choices, this`problems
      ensures Emit(o, who).got == Some(got) && Emit(o, who).pending == []
      ensures choices == old(choices) + Emit(o, who).choices
      ensures problems == old(problems) + Emit(o, who).problems
    {
      match o
      case Take(pkg) =>
        got := [pkg];
      case Report(issue) =>
        problems := problems + [Problem(issue, who)];
        got := [];
      case Ask(expression, alternatives) =>
        choices := choices + [Choice(expression, alternatives, who)];
        got := [];
    }

    /** Packages an expression demands now, or `None` to try again later. */
    method Require(node: Node, who: string, final: bool) returns (got: Option<seq<string>>)
      modifies this`pending, this`choices, this`problems
      ensures var e := Demand(r, seen, node, who, final);
        && got == e.got && pending == old(pending) + e.pending
        && choices == old(choices) + e.choices && problems == old(problems) + e.problems
      decreases node
    {
      if IsFixed(node) {
        var taken := Settle(FixedOutcome(r, node), who);
        return Some(taken);
      }
      match node
      case Chain(op, children) =>
        if op.And? {
          var taken := RequireAll(children, who, final);
          return Some(taken);
        }
        if Satisfied(r, node, seen) { return Some([]); }
        var taken := Settle(OrOutcome(r, node), who);
        return Some(taken);
      case Conditional(op, then_, cond, other) =>
        if op.If? {
          if Satisfied(r, cond, seen) {
            got := Require(then_, who, final);
          } else if other.Some? {
            got := Require(other.value, who, final);
          } else {
            got := None;
          }
        } else if op.Unless? {
          if Satisfied(r, cond, seen) {
            if other.Some? { got := Require(other.value, who, final); } else { got := Some([]); }
          } else if final {
            got := Require(then_, who, final);
          } else {
            got := None;
          }
        } else {
          var taken := Settle(Report(Unreadable(r.show(node))), who);
          return Some(taken);
        }
    }

    /** The conjuncts of an `and`, each by itself. */
    method RequireAll(children: seq<Node>, who: string, final: bool) returns (out: seq<string>)
      modifies this`pending, this`choices, this`problems
      ensures var e := DemandAll(r, seen, children, who, final);
        && Some(out) == e.got && pending == old(pending) + e.pending
        && choices == old(choices) + e.choices && problems == old(problems) + e.problems
      decreases children
    {
      out := [];
      ghost var acc := NOTHING;
      ghost var rest := children;
      ThenNothing(DemandAll(r, seen, children, who, final));
      for i := 0 to |children|
        invariant rest == children[i..]
        invariant acc.got == Some(out)
        invariant pending == old(pending) + acc.pending
        invariant choices == old(choices) + acc.choices && problems == old(problems) + acc.problems
        invariant Then(acc, DemandAll(r, seen, rest, who, final)) == DemandAll(r, seen, children, who, final)
      {
        ghost var e := Demand(r, seen, children[i], who, final);
        DemandAllStep(r, seen, acc, rest, who, final);
        StepRecorded(acc, e, children[i], who, old(pending), old(choices), old(problems));
        var got := Require(children[i], who, final);
        if got.None? {
          pending := pending + [Pending(children[i], who)];
        } else {
          out := out + got.value;
        }
        acc := Then(acc, Await(e, children[i], who));
        rest := rest[1..];
      }
      assert rest == [];
      ThenNothing(acc);
    }

    /** One rich requirement, put off if it must be. */
    method ReduceRich(base: string, pkg: string) returns (got: seq<string>)
      modifies this`pending, this`choices, this`problems
      ensures var e := DemandRich(r, seen, base, pkg);
        && Some(got) == e.got && pending == old(pending) + e.pending
        && choices == old(choices) + e.choices && problems == old(problems) + e.problems
    {
      var node := r.read(base);
      if node.None? {
        got := Settle(Report(Unreadable(base)), pkg);
        return;
      }
      var demanded := Require(node.value, pkg, false);
      if demanded.None? {
        pending := pending + [Pending(node.value, pkg)];
        return [];
      }
      return demanded.value;
    }

    /** One requirement: rich ones are reduced, plain ones resolved. */
    method AskNeed(cap: string, atRoot: bool, who: string) returns (got: seq<string>)
      modifies this`pending, this`choices, this`problems
      ensures var e := DemandNeed(r, seen, cap, atRoot, who);
        && Some(got) == e.got && pending == old(pending) + e.pending
        && choices == old(choices) + e.choices && problems == old(problems) + e.problems
    {
      if r.rich(r.strip(cap)) {
        got := ReduceRich(r.strip(cap), who);
      } else {
        got := Settle(PlainOutcome(r, cap, atRoot), who);
      }
    }

    /** Put on the frontier what has not been seen. */
    method Push(pkgs: seq<string>)
      modifies this`frontier
      ensures seen + Elements(frontier) == seen + Elements(old(frontier)) + Elements(pkgs)
      ensures (forall p :: p in old(frontier) ==> p !in seen) ==> forall p :: p in frontier ==> p !in seen
      ensures pkgs == [] ==> frontier == old(frontier)
    {
      for i := 0 to |pkgs|
        invariant seen + Elements(frontier) == seen + Elements(old(frontier)) + Elements(pkgs[..i])
        invariant (forall p :: p in old(frontier) ==> p !in seen) ==> forall p :: p in frontier ==> p !in seen
        invariant i == 0 ==> frontier == old(frontier)
      {
        assert pkgs[..i + 1] == pkgs[..i] + [pkgs[i]];
        ElementsAppend(pkgs[..i], [pkgs[i]]);
        ElementsAppend(frontier, [pkgs[i]]);
        if pkgs[i] !in seen { frontier := frontier + [pkgs[i]]; }
      }
      assert pkgs[..|pkgs|] == pkgs;
    }

    // ── The loops ──────────────────────────────────────────────────────

    /** The requirements at the root. */
    method AskAtRoot(ghost roots: seq<string>, extra: seq<(string, string)>)
      requires seen == {} && Ledger() == Books(Elements(roots), [], [], [])
      modifies this`frontier, this`pending, this`choices, this`problems
      ensures Kept(r, roots, extra, |extra|, seen, Ledger())
    {
      KeptAtStart(r, roots, extra);
      for i := 0 to |extra|
        invariant Kept(r, roots, extra, i, {}, Ledger())
      {
        ghost var b := Ledger();
        KeptExtra(r, roots, extra, seen, b, i);
        var got := AskNeed(extra[i].0, true, extra[i].1);
        ElementsAppend(frontier, got);
        frontier := frontier + got;
        assert Ledger() == After(b, DemandNeed(r, seen, extra[i].0, true, extra[i].1));
      }
    }

    /** Everything a package just visited requires. */
    method VisitNeeds(pkg: string, ghost roots: seq<string>, ghost extra: seq<(string, string)>)
      requires pkg in seen && Kept(r, roots, extra, |extra|, seen - {pkg}, Ledger())
      modifies this`frontier, this`pending, this`choices, this`problems
      ensures Kept(r, roots, extra, |extra|, seen, Ledger()) && old(Ledger()).reached <= Ledger().reached
    {
      var needs := Needs(r, pkg);
      for i := 0 to |needs|
        invariant old(Ledger()).reached <= Ledger().reached
        invariant KeptVisiting(r, roots, extra, seen, pkg, i, Ledger())
      {
        ghost var b := Ledger();
        KeptNeed(r, roots, extra, seen, pkg, i, b);
        var got := AskNeed(needs[i], false, pkg);
        Push(got);
        assert Ledger() == After(b, DemandNeed(r, seen, needs[i], false, pkg));
      }
      KeptVisited(r, roots, extra, seen, pkg, Ledger());
    }

    /** Take the last package off the frontier and visit it, unless it has been seen. */
    method VisitLast(ghost roots: seq<string>, ghost extra: seq<(string, string)>)
      requires Kept(r, roots, extra, |extra|, seen, Ledger()) && frontier != []
      modifies this`seen, this`frontier, this`pending, this`choices, this`problems
      ensures Kept(r, roots, extra, |extra|, seen, Ledger())
      ensures old(Ledger()).reached <= Ledger().reached
      ensures old(seen) < seen || (seen == old(seen) && |frontier| < |old(frontier)|)
    {
      ghost var b := Ledger();
      var pkg := frontier[|frontier| - 1];
      Popped(seen, frontier);
      frontier := frontier[..|frontier| - 1];
      if pkg in seen {
        assert Ledger() == b;
        return;
      }
      seen := seen + {pkg};
      assert Ledger() == b;
      VisitNeeds(pkg, roots, extra);
    }

    /** Visit until the frontier is empty, last in first out. */
    method Drain(ghost roots: seq<string>, ghost extra: seq<(string, string)>)
      requires Kept(r, roots, extra, |extra|, seen, Ledger())
      modifies this`seen, this`frontier, this`pending, this`choices, this`problems
      ensures Kept(r, roots, extra, |extra|, seen, Ledger())
      ensures frontier == [] && old(seen) <= seen
      ensures forall p :: p in old(frontier) ==> p in seen
    {
      while frontier != []
        invariant Kept(r, roots, extra, |extra|, seen, Ledger())
        invariant old(seen) <= seen
        invariant Elements(old(frontier)) <= Ledger().reached
        decreases Universe(r, roots, extra) - seen, |frontier|
      {
        assert frontier[|frontier| - 1] in Ledger().reached;
        VisitLast(roots, extra);
      }
    }

    /** Ask again for one waiting expression. */
    method RetryOne(pd: Pending, final: bool, ghost still: seq<Pending>, ghost tail: seq<Pending>,
                    ghost roots: seq<string>, ghost extra: seq<(string, string)>)
      returns (waits: bool)
      requires Kept(r, roots, extra, |extra|, seen, LedgerWaiting(still + [pd] + tail))
      requires final ==> Inevitable(r, roots, extra) <= seen
      requires forall p :: p in frontier ==> p !in seen
      modifies this`frontier, this`pending, this`choices, this`problems
      ensures var e := Demand(r, seen, pd.node, pd.who, final);
        && waits == e.got.None? && pending == old(pending) + e.pending
        && (e == LATER ==> frontier == old(frontier) && choices == old(choices))
        && Kept(r, roots, extra, |extra|, seen,
                LedgerWaiting((if waits then still + [pd] else still) + (tail + e.pending)))
      ensures forall p :: p in frontier ==> p !in seen
    {
      ghost var b := LedgerWaiting(still + [pd] + tail);
      ghost var e := Demand(r, seen, pd.node, pd.who, final);
      KeptRetry(r, roots, extra, seen, b, still, pd, tail, final);
      var got := Require(pd.node, pd.who, final);
      waits := got.None?;
      if !waits { Push(got.value); }
      assert LedgerWaiting((if waits then still + [pd] else still) + (tail + e.pending))
          == Retried(b, still, tail, pd, e);
    }

    /** Ask again for what is waiting; what is set aside meanwhile joins the end of the list being read. */
    method Retry(final: bool, ghost roots: seq<string>, ghost extra: seq<(string, string)>)
      requires Kept(r, roots, extra, |extra|, seen, Ledger()) && frontier == []
      requires final ==> Inevitable(r, roots, extra) <= seen
      modifies this`frontier, this`pending, this`choices, this`problems
      ensures Kept(r, roots, extra, |extra|, seen, Ledger())
      ensures forall p :: p in frontier ==> p !in seen
      ensures AllWait(r, seen, pending, final)
      ensures AllWait(r, seen, old(pending), final) ==> pending == old(pending) && choices == old(choices)
    {
      ghost var quiet := AllWait(r, seen, pending, final);
      var still := [];
      var i := 0;
      ghost var rest := pending;
      assert still + rest == pending;
      while i < |pending|
        invariant 0 <= i <= |pending| && rest == pending[i..]
        invariant Kept(r, roots, extra, |extra|, seen, LedgerWaiting(still + rest))
        invariant forall p :: p in frontier ==> p !in seen
        invariant AllWait(r, seen, still, final)
        invariant quiet ==> AllWait(r, seen, rest, final) && old(pending) == still + rest && choices == old(choices)
        decreases Weight(rest)
      {
        var pd := pending[i];
        ghost var tail := rest[1..];
        Uncons(still, pending, i, rest);
        RetryShrinks(r, seen, pd, tail, final);
        AllWaitStep(r, seen, still, pd, tail, final);
        var waits := RetryOne(pd, final, still, tail, roots, extra);
        i := i + 1;
        rest := tail + Demand(r, seen, pd.node, pd.who, final).pending;
        if waits { still := still + [pd]; }
      }
      assert rest == [] && still + rest == still;
      pending := still;
    }

    /** Look at one choice again: an override that names it is a decision. */
    method ReviewOne(ch: Choice, ghost still: seq<Choice>, ghost tail: seq<Choice>,
                     ghost roots: seq<string>, ghost extra: seq<(string, string)>)
      returns (keep: bool)
      requires Kept(r, roots, extra, |extra|, seen, LedgerOpen(still + [ch] + tail))
      requires forall p :: p in frontier ==> p !in seen
      modifies this`frontier
      ensures Kept(r, roots, extra, |extra|, seen, LedgerOpen(if keep then still + [ch] + tail else still + tail))
      ensures forall p :: p in frontier ==> p !in seen
      ensures keep <==> !AnyPresent(r, ch.alternatives, seen) && ch.expression !in r.overrides
    {
      ghost var b := LedgerOpen(still + [ch] + tail);
      KeptReview(r, roots, extra, seen, b, still, ch, tail);
      keep := !AnyPresent(r, ch.alternatives, seen) && ch.expression !in r.overrides;
      if !keep && !AnyPresent(r, ch.alternatives, seen) {
        Push([r.overrides[ch.expression]]);
      }
      assert LedgerOpen(if keep then still + [ch] + tail else still + tail) == Reviewed(r, seen, b, still, ch, tail);
    }

    /** Drop the choices that are met or decided. */
    method ReviewChoices(ghost roots: seq<string>, ghost extra: seq<(string, string)>)
      requires Kept(r, roots, extra, |extra|, seen, Ledger())
      requires forall p :: p in frontier ==> p !in seen
      modifies this`frontier, this`choices
      ensures Kept(r, roots, extra, |extra|, seen, Ledger())
      ensures forall p :: p in frontier ==> p !in seen
      ensures Open(r, choices, seen)
    {
      var still := [];
      ghost var rest := choices;
      assert still + rest == choices;
      for i := 0 to |choices|
        invariant choices == old(choices) && rest == choices[i..]
        invariant Kept(r, roots, extra, |extra|, seen, LedgerOpen(still + rest))
        invariant forall p :: p in frontier ==> p !in seen
        invariant Open(r, still, seen)
      {
        UnconsChoice(still, choices, i, rest);
        var keep := ReviewOne(choices[i], still, rest[1..], roots, extra);
        if keep { still := still + [choices[i]]; }
        rest := rest[1..];
      }
      assert rest == [] && still + rest == still;
      choices := still;
    }

    /** Drain, retry and review once; if nothing came of it, give up on what waits for an `unless`. */
    method Round(ghost roots: seq<string>, ghost extra: seq<(string, string)>)
      requires Kept(r, roots, extra, |extra|, seen, Ledger())
      modifies this`seen, this`frontier, this`pending, this`choices, this`problems
      ensures Kept(r, roots, extra, |extra|, seen, Ledger())
      ensures old(seen) <= seen
      ensures forall p :: p in old(frontier) ==> p in seen
      ensures forall p :: p in frontier ==> p !in seen
      ensures frontier == [] ==> AllWait(r, seen, pending, true) && (AllUnlessFree(r, extra, seen) ==> Open(r, choices, seen))
    {
      Drain(roots, extra);
      Retry(false, roots, extra);
      ReviewChoices(roots, extra);
      if frontier == [] { GiveUpWaiting(roots, extra); }
    }

    /** Nothing moves any more: what waits for an `unless` is asked for a last time. */
    method GiveUpWaiting(ghost roots: seq<string>, ghost extra: seq<(string, string)>)
      requires Kept(r, roots, extra, |extra|, seen, Ledger()) && frontier == []
      requires AllWait(r, seen, pending, false) && Open(r, choices, seen)
      modifies this`frontier, this`pending, this`choices, this`problems
      ensures Kept(r, roots, extra, |extra|, seen, Ledger())
      ensures forall p :: p in frontier ==> p !in seen
      ensures AllWait(r, seen, pending, true) && (AllUnlessFree(r, extra, seen) ==> Open(r, choices, seen))
    {
      LastPass(r, roots, extra, seen, Ledger());
      Retry(true, roots, extra);
    }
  }

  lemma Enlarged(u: set<string>, was: set<string>, now: set<string>, x: string)
    requires was <= now <= u && x in now && x !in was
    ensures u - now < u - was
  {
    assert x in u - was && x !in u - now;
  }

  /** The closure of a set of packages under what they require, and everything that could not be settled. */
  method Close(r: Rules, roots: seq<string>, extra: seq<(string, string)>)
    returns (seen: set<string>, problems: seq<Problem>)
    ensures Ran(r, roots, extra, seen, problems)
  {
    var run := new Run(r, roots);
    run.AskAtRoot(roots, extra);
    ghost var first := true;
    while true
      invariant run.r == r && Kept(r, roots, extra, |extra|, run.seen, run.Ledger())
      invariant !first ==> run.frontier != [] && run.frontier[0] !in run.seen
      decreases Universe(r, roots, extra) - run.seen, if first then 1 else 0
    {
      ghost var was, next := run.seen, run.frontier;
      run.Round(roots, extra);
      if run.frontier == [] { break; }
      assert run.seen <= run.Ledger().reached;
      if !first { Enlarged(Universe(r, roots, extra), was, run.seen, next[0]); }
      first := false;
    }
    assert run.Ledger().reached == run.seen;
    var reports := ReportChoices(run.choices);
    Conclude(r, roots, extra, run.Ledger(), reports);
    return run.seen, run.problems + reports;
  }
}
