/** The worklist that closes a set of packages over their requirements. */
module ClosureRun {
  import opened BooleanDeps
  import opened ClosureRules
  import opened ClosureInvariant
  import opened ClosureFixpoint
  import opened ClosureBranches

  // ── What the run has accounted for ───────────────────────────────────

  /** The roots are reached, and the requirements of the first `done` extras and of every visited package covered. */
  ghost predicate Accounted(r: Rules, roots: seq<string>, extra: seq<(string, string)>, done: nat, visited: set<string>,
                            b: Books)
  {
    && (forall p :: p in roots ==> p in b.reached)
    && (forall i :: 0 <= i < |extra| && i < done ==> NeedCovered(r, extra[i].0, true, extra[i].1, b))
    && (forall p, i :: p in visited && 0 <= i < |Needs(r, p)| ==> NeedCovered(r, Needs(r, p)[i], false, p, b))
  }

  lemma AccountedAdvances(r: Rules, roots: seq<string>, extra: seq<(string, string)>, done: nat, visited: set<string>,
                          b: Books, c: Books)
    requires Accounted(r, roots, extra, done, visited, b) && Advances(r, b, c)
    ensures Accounted(r, roots, extra, done, visited, c)
  {
    forall i | 0 <= i < |extra| && i < done ensures NeedCovered(r, extra[i].0, true, extra[i].1, c) {
      NeedAdvances(r, extra[i].0, true, extra[i].1, b, c);
    }
    forall p, i | p in visited && 0 <= i < |Needs(r, p)| ensures NeedCovered(r, Needs(r, p)[i], false, p, c) {
      NeedAdvances(r, Needs(r, p)[i], false, p, b, c);
    }
  }

  /** All the packages a run could reach. */
  ghost function Universe(r: Rules, roots: seq<string>, extra: seq<(string, string)>): set<string> {
    (set p | p in roots)
    + (set i, o | 0 <= i < |extra| && o in MayNeed(r, extra[i].0, true) && o.Take? :: o.pkg)
    + (set k, i, o | k in r.needs && 0 <= i < |r.needs[k]| && o in MayNeed(r, r.needs[k][i], false) && o.Take? :: o.pkg)
    + r.overrides.Values
  }

  /** What every set of packages closed under the requirements holds. */
  ghost function Inevitable(r: Rules, roots: seq<string>, extra: seq<(string, string)>): set<string> {
    set p | p in Universe(r, roots, extra) && InEvery(r, roots, extra, p)
  }

  ghost predicate InEvery(r: Rules, roots: seq<string>, extra: seq<(string, string)>, p: string) {
    forall t :: ClosedUnder(r, roots, extra, t) ==> p in t
  }

  lemma InevitableIsInside(r: Rules, roots: seq<string>, extra: seq<(string, string)>, t: set<string>)
    requires ClosedUnder(r, roots, extra, t)
    ensures Inevitable(r, roots, extra) <= t
  {
    forall p | p in Inevitable(r, roots, extra) ensures p in t {
      assert InEvery(r, roots, extra, p);
    }
  }

  /**
   * An outcome some requirement of `who` has come to, by branches taken on the
   * way to `s`: a requirement at the root, or of a package in `s`.
   */
  ghost predicate Voiced(r: Rules, sure: set<string>, extra: seq<(string, string)>, s: set<string>, o: Outcome,
                         who: string)
  {
    || (exists i :: 0 <= i < |extra| && extra[i].1 == who && o in FiredNeed(r, sure, extra[i].0, true, s))
    || (who in s && exists i :: 0 <= i < |Needs(r, who)| && o in FiredNeed(r, sure, Needs(r, who)[i], false, s))
  }

  lemma VoicedGrows(r: Rules, sure: set<string>, extra: seq<(string, string)>, s: set<string>, t: set<string>,
                    o: Outcome, who: string)
    requires s <= t && Voiced(r, sure, extra, s, o, who)
    ensures Voiced(r, sure, extra, t, o, who)
  {
    if i :| 0 <= i < |extra| && extra[i].1 == who && o in FiredNeed(r, sure, extra[i].0, true, s) {
      NeedGrows(r, sure, extra[i].0, true, s, t);
    } else {
      var i :| 0 <= i < |Needs(r, who)| && o in FiredNeed(r, sure, Needs(r, who)[i], false, s);
      NeedGrows(r, sure, Needs(r, who)[i], false, s, t);
    }
  }

  lemma VoicedInUniverse(r: Rules, sure: set<string>, roots: seq<string>, extra: seq<(string, string)>,
                         s: set<string>, o: Outcome,
                         who: string)
    requires Voiced(r, sure, extra, s, o, who)
    ensures Taken(o) <= Universe(r, roots, extra)
  {
    if i :| 0 <= i < |extra| && extra[i].1 == who && o in FiredNeed(r, sure, extra[i].0, true, s) {
      NeedGrows(r, sure, extra[i].0, true, s, s);
    } else {
      var i :| 0 <= i < |Needs(r, who)| && o in FiredNeed(r, sure, Needs(r, who)[i], false, s);
      NeedGrows(r, sure, Needs(r, who)[i], false, s, s);
      assert who in r.needs && Needs(r, who)[i] == r.needs[who][i];
    }
  }

  /** The package is a root, or somebody's requirement takes it, or it is an override's answer to somebody's choice. */
  ghost predicate Wanted(r: Rules, roots: seq<string>, extra: seq<(string, string)>, s: set<string>, p: string) {
    var sure := Inevitable(r, roots, extra);
    || p in roots
    || (exists who :: Voiced(r, sure, extra, s, Take(p), who))
    || (exists e, alternatives, who ::
          Voiced(r, sure, extra, s, Ask(e, alternatives), who) && e in r.overrides && r.overrides[e] == p)
  }

  lemma WantedGrows(r: Rules, roots: seq<string>, extra: seq<(string, string)>, s: set<string>, t: set<string>,
                    p: string)
    requires s <= t && Wanted(r, roots, extra, s, p)
    ensures Wanted(r, roots, extra, t, p)
  {
    var sure := Inevitable(r, roots, extra);
    if p !in roots {
      if who :| Voiced(r, sure, extra, s, Take(p), who) {
        VoicedGrows(r, sure, extra, s, t, Take(p), who);
      } else {
        var e, alternatives, who :|
          Voiced(r, sure, extra, s, Ask(e, alternatives), who) && e in r.overrides && r.overrides[e] == p;
        VoicedGrows(r, sure, extra, s, t, Ask(e, alternatives), who);
      }
    }
  }

  /** Whatever comes of a waiting expression from `s` on, its asker has voiced. */
  ghost predicate WaitVoiced(r: Rules, sure: set<string>, extra: seq<(string, string)>, s: set<string>, p: Pending) {
    forall t, o :: s <= t && o in Fired(r, sure, p.node, t) ==> Voiced(r, sure, extra, t, o, p.who)
  }

  ghost predicate ChoiceVoiced(r: Rules, sure: set<string>, extra: seq<(string, string)>, s: set<string>, c: Choice) {
    Voiced(r, sure, extra, s, Ask(c.expression, c.alternatives), c.who)
  }

  ghost predicate ProblemVoiced(r: Rules, sure: set<string>, extra: seq<(string, string)>, s: set<string>, q: Problem) {
    q.Problem? && Voiced(r, sure, extra, s, Report(q.issue), q.who)
  }

  /** What the books record was voiced by the time the closure was `s`. */
  ghost predicate RecordsVoiced(r: Rules, sure: set<string>, extra: seq<(string, string)>, s: set<string>, b: Books) {
    && (forall p :: p in b.pending ==> WaitVoiced(r, sure, extra, s, p))
    && (forall c :: c in b.choices ==> ChoiceVoiced(r, sure, extra, s, c))
    && (forall q :: q in b.problems ==> ProblemVoiced(r, sure, extra, s, q))
  }

  /** The books hold only what can be reached, and only what somebody's requirement has come to. */
  ghost predicate Bounded(r: Rules, roots: seq<string>, extra: seq<(string, string)>, b: Books) {
    && b.reached <= Universe(r, roots, extra)
    && (forall p :: p in b.reached ==> Wanted(r, roots, extra, b.reached, p))
    && RecordsVoiced(r, Inevitable(r, roots, extra), extra, b.reached, b)
  }

  /** The same of what an effect adds. */
  ghost predicate EffectVoiced(r: Rules, sure: set<string>, extra: seq<(string, string)>, s: set<string>, e: Effect,
                               who: string)
  {
    && (e.got.Some? ==> forall p :: p in e.got.value ==> Voiced(r, sure, extra, s, Take(p), who))
    && (forall p :: p in e.pending ==> WaitVoiced(r, sure, extra, s, p))
    && (forall c :: c in e.choices ==> ChoiceVoiced(r, sure, extra, s, c))
    && (forall q :: q in e.problems ==> ProblemVoiced(r, sure, extra, s, q))
  }

  /** What comes of an expression its asker has voiced is voiced. */
  lemma VoicesVoiced(r: Rules, sure: set<string>, extra: seq<(string, string)>, e: Effect, n: Node, s: set<string>,
                     t: set<string>, who: string)
    requires Voices(r, sure, e, n, s, who) && s <= t && WaitVoiced(r, sure, extra, t, Pending(n, who))
    ensures EffectVoiced(r, sure, extra, t, e, who)
  {
    FiredGrows(r, sure, n, s, t);
    forall p | p in e.pending ensures WaitVoiced(r, sure, extra, t, p) {
      assert PartOf(r, sure, p.node, n, s);
      assert forall u :: t <= u ==> s <= u;
    }
  }

  /** A requirement that is somebody's, at the root or of a package in `s`. */
  ghost predicate Asks(r: Rules, extra: seq<(string, string)>, s: set<string>, cap: string, atRoot: bool, who: string) {
    if atRoot then exists i :: 0 <= i < |extra| && extra[i] == (cap, who)
    else who in s && exists i :: 0 <= i < |Needs(r, who)| && Needs(r, who)[i] == cap
  }

  lemma AskedIsVoiced(r: Rules, sure: set<string>, extra: seq<(string, string)>, s: set<string>, t: set<string>,
                      cap: string, atRoot: bool,
                      who: string, o: Outcome)
    requires Asks(r, extra, s, cap, atRoot, who) && s <= t && o in FiredNeed(r, sure, cap, atRoot, t)
    ensures Voiced(r, sure, extra, t, o, who)
  {
  }

  /** What comes of somebody's requirement is voiced. */
  lemma NeedVoiced(r: Rules, sure: set<string>, extra: seq<(string, string)>, s: set<string>, t: set<string>,
                   cap: string, atRoot: bool,
                   who: string)
    requires s <= t && Asks(r, extra, t, cap, atRoot, who)
    ensures EffectVoiced(r, sure, extra, t, DemandNeed(r, s, cap, atRoot, who), who)
  {
    var base := r.strip(cap);
    forall u, o | t <= u && o in FiredNeed(r, sure, cap, atRoot, u) ensures Voiced(r, sure, extra, u, o, who) {
      AskedIsVoiced(r, sure, extra, t, u, cap, atRoot, who, o);
    }
    if r.rich(base) && r.read(base).Some? {
      var n := r.read(base).value;
      assert WaitVoiced(r, sure, extra, t, Pending(n, who)) by {
        assert forall u :: Fired(r, sure, n, u) == FiredNeed(r, sure, cap, atRoot, u);
      }
      DemandVoices(r, sure, s, n, who, false);
      VoicesVoiced(r, sure, extra, Demand(r, s, n, who, false), n, s, t, who);
    }
  }

  /** A run that stays inside a closed set: only in the monotone fragment. */
  ghost predicate Sound(r: Rules, b: Books, t: set<string>) {
    && b.reached <= t
    && (forall p :: p in b.pending ==> Monotone(p.node) && Within(r, p.node, t))
    && (forall c :: c in b.choices ==> c.expression !in r.overrides)
  }

  /** A choice is never decided by an override: its text is no override's key. */
  ghost predicate ChoicesStand(r: Rules) {
    && (forall c {:trigger r.resolve(c)} :: r.resolve(c).Ambiguous? ==> c !in r.overrides)
    && (forall cs {:trigger r.range(cs)} :: r.range(cs).Ambiguous? ==> r.rangeText(cs) !in r.overrides)
  }

  ghost predicate Quiet(r: Rules, e: Effect) {
    forall c :: c in e.choices ==> c.expression !in r.overrides
  }

  lemma {:induction false} DemandQuiet(r: Rules, s: set<string>, n: Node, who: string, final: bool)
    requires ChoicesStand(r) && Monotone(n)
    ensures Quiet(r, Demand(r, s, n, who, final))
    decreases n
  {
    if !IsFixed(n) {
      match n
      case Chain(op, children) => DemandAllQuiet(r, s, children, who, final);
      case Conditional(op, then_, cond, other) => DemandQuiet(r, s, then_, who, final);
    }
  }

  lemma {:induction false} DemandAllQuiet(r: Rules, s: set<string>, ns: seq<Node>, who: string, final: bool)
    requires ChoicesStand(r) && forall i :: 0 <= i < |ns| ==> Monotone(ns[i])
    ensures Quiet(r, DemandAll(r, s, ns, who, final))
    decreases ns
  {
    if ns != [] {
      DemandQuiet(r, s, ns[0], who, final);
      assert forall i :: 0 <= i < |ns[1..]| ==> ns[1..][i] == ns[i + 1];
      DemandAllQuiet(r, s, ns[1..], who, final);
    }
  }

  lemma NeedQuiet(r: Rules, s: set<string>, cap: string, atRoot: bool, who: string)
    requires ChoicesStand(r) && NeedMonotone(r, cap)
    ensures Quiet(r, DemandNeed(r, s, cap, atRoot, who))
  {
    var base := r.strip(cap);
    if r.rich(base) && r.read(base).Some? { DemandQuiet(r, s, r.read(base).value, who, false); }
  }

  // ── Entering an effect ───────────────────────────────────────────────

  /** The books after an effect: what it demanded is reached, what it recorded is recorded. */
  ghost function After(b: Books, e: Effect): Books {
    Books(b.reached + (if e.got.Some? then set p | p in e.got.value else {}),
          b.pending + e.pending, b.choices + e.choices, b.problems + e.problems)
  }

  lemma AfterEnters(r: Rules, b: Books, e: Effect)
    ensures Entered(e, After(b, e)) && Advances(r, b, After(b, e))
  {
  }

  /** Entering what was voiced keeps the books bounded. */
  lemma EnteredBounded(r: Rules, roots: seq<string>, extra: seq<(string, string)>, b: Books, e: Effect, who: string,
                       c: Books)
    requires Bounded(r, roots, extra, b) && EffectVoiced(r, Inevitable(r, roots, extra), extra, b.reached, e, who)
    requires c.reached == b.reached + (if e.got.Some? then set p | p in e.got.value else {})
    requires forall p :: p in c.pending ==> p in b.pending || p in e.pending
    requires c.choices == b.choices + e.choices && c.problems == b.problems + e.problems
    ensures Bounded(r, roots, extra, c)
  {
    var sure := Inevitable(r, roots, extra);
    forall p | p in c.reached ensures Wanted(r, roots, extra, c.reached, p) && p in Universe(r, roots, extra) {
      if p !in b.reached { VoicedInUniverse(r, sure, roots, extra, b.reached, Take(p), who); }
      WantedGrows(r, roots, extra, b.reached, c.reached, p);
    }
    RecordsGrow(r, sure, extra, b.reached, c);
  }

  lemma RecordsGrow(r: Rules, sure: set<string>, extra: seq<(string, string)>, s: set<string>, b: Books)
    requires RecordsVoiced(r, sure, extra, s, b) && s <= b.reached
    ensures RecordsVoiced(r, sure, extra, b.reached, b)
  {
    forall p | p in b.pending ensures WaitVoiced(r, sure, extra, b.reached, p) {
      assert WaitVoiced(r, sure, extra, s, p);
    }
    forall c | c in b.choices ensures ChoiceVoiced(r, sure, extra, b.reached, c) {
      VoicedGrows(r, sure, extra, s, b.reached, Ask(c.expression, c.alternatives), c.who);
    }
    forall q | q in b.problems ensures ProblemVoiced(r, sure, extra, b.reached, q) {
      VoicedGrows(r, sure, extra, s, b.reached, Report(q.issue), q.who);
    }
  }

  lemma AfterSound(r: Rules, b: Books, e: Effect, t: set<string>)
    requires Sound(r, b, t) && Inside(r, e, t) && Quiet(r, e)
    ensures Sound(r, After(b, e), t)
  {
  }

  // ── Answers ──────────────────────────────────────────────────────────

  ghost predicate OutcomeAnswered(r: Rules, o: Outcome, who: string, seen: set<string>, problems: seq<Problem>) {
    match o
    case Take(pkg) => pkg in seen
    case Report(issue) => Problem(issue, who) in problems
    case Ask(e, alternatives) => ChoiceMet(r, Choice(e, alternatives, who), seen) || ReportedUndecided(problems, e, who)
  }

  ghost predicate ReportedUndecided(problems: seq<Problem>, e: string, who: string) {
    exists q :: q in problems && q.Undecided? && q.expression == e && who in q.askers
  }

  /**
   * Granted in the final closure, or reported.  A branch of an `if` counts if
   * its condition may have been true, the other if there is one; an `unless`
   * is granted or let off.
   */
  ghost predicate Answered(r: Rules, n: Node, who: string, seen: set<string>, problems: seq<Problem>)
    decreases n
  {
    if IsFixed(n) then OutcomeAnswered(r, FixedOutcome(r, n), who, seen, problems)
    else match n
      case Chain(op, children) =>
        if op.And? then forall i :: 0 <= i < |children| ==> Answered(r, children[i], who, seen, problems)
        else Positive(n) ==> Satisfied(r, n, seen) || OutcomeAnswered(r, OrOutcome(r, n), who, seen, problems)
      case Conditional(op, then_, cond, other) =>
        if op.If? then
          || (Settled(r, cond, seen) && Answered(r, then_, who, seen, problems))
          || (if other.Some? then Answered(r, other.value, who, seen, problems) else !Satisfied(r, cond, seen))
        else if op.Unless? then
          || Answered(r, then_, who, seen, problems)
          || (Settled(r, cond, seen) && (other.Some? ==> Answered(r, other.value, who, seen, problems)))
        else OutcomeAnswered(r, Report(Unreadable(r.show(n))), who, seen, problems)
      case _ => true
  }

  ghost predicate NeedAnswered(r: Rules, cap: string, atRoot: bool, who: string, seen: set<string>,
                               problems: seq<Problem>)
  {
    if r.rich(r.strip(cap)) then
      var node := r.read(r.strip(cap));
      if node.None? then Problem(Unreadable(r.strip(cap)), who) in problems
      else Answered(r, node.value, who, seen, problems)
    else OutcomeAnswered(r, PlainOutcome(r, cap, atRoot), who, seen, problems)
  }

  /** The books are closed: nothing waiting can fire, and every open choice is reported. */
  ghost predicate Closing(r: Rules, b: Books, problems: seq<Problem>) {
    && (forall p :: p in b.pending ==> Demand(r, b.reached, p.node, p.who, true).got.None?)
    && (forall q :: q in b.problems ==> q in problems)
    && (forall c :: c in b.choices ==> ReportedUndecided(problems, c.expression, c.who))
  }

  lemma {:induction false} WaitingIsAnswered(r: Rules, n: Node, who: string, s: set<string>, problems: seq<Problem>)
    requires Demand(r, s, n, who, true).got.None?
    ensures Answered(r, n, who, s, problems)
    decreases n
  {
    if !IsFixed(n) && n.Conditional? {
      if Satisfied(r, n.cond, s) == n.op.If? {
        if n.op.If? || n.op.Unless? { WaitingIsAnswered(r, n.then_, who, s, problems); }
      } else if n.other.Some? {
        WaitingIsAnswered(r, n.other.value, who, s, problems);
      }
    }
  }

  lemma {:induction false} CoveredIsAnswered(r: Rules, n: Node, who: string, b: Books, problems: seq<Problem>)
    requires Covered(r, n, who, b) && Closing(r, b, problems)
    ensures Answered(r, n, who, b.reached, problems)
    decreases n
  {
    if !IsFixed(n) {
      match n
      case Chain(op, children) =>
        if op.And? {
          forall i | 0 <= i < |children| ensures Answered(r, children[i], who, b.reached, problems) {
            CoveredIsAnswered(r, children[i], who, b, problems);
          }
        }
      case Conditional(op, then_, cond, other) =>
        if (op.If? || op.Unless?) && Pending(n, who) in b.pending {
          WaitingIsAnswered(r, n, who, b.reached, problems);
        } else {
          if Covered(r, then_, who, b) { CoveredIsAnswered(r, then_, who, b, problems); }
          if other.Some? && Covered(r, other.value, who, b) { CoveredIsAnswered(r, other.value, who, b, problems); }
        }
    }
  }

  lemma NeedIsAnswered(r: Rules, cap: string, atRoot: bool, who: string, b: Books, problems: seq<Problem>)
    requires NeedCovered(r, cap, atRoot, who, b) && Closing(r, b, problems)
    ensures NeedAnswered(r, cap, atRoot, who, b.reached, problems)
  {
    var base := r.strip(cap);
    if r.rich(base) && r.read(base).Some? {
      CoveredIsAnswered(r, r.read(base).value, who, b, problems);
    }
  }

  // ── What has fired is answered ───────────────────────────────────────

  lemma {:induction false} FiredByOne(r: Rules, sure: set<string>, ns: seq<Node>, s: set<string>, o: Outcome)
    requires o in FiredAll(r, sure, ns, s)
    ensures exists i :: 0 <= i < |ns| && o in Fired(r, sure, ns[i], s)
  {
    if o !in Fired(r, sure, ns[0], s) {
      FiredByOne(r, sure, ns[1..], s, o);
      var i :| 0 <= i < |ns[1..]| && o in Fired(r, sure, ns[1..][i], s);
      assert ns[i + 1] == ns[1..][i];
    }
  }

  /** In the monotone fragment, every outcome of a branch that was taken is granted or reported. */
  lemma {:induction false} FiredIsAnswered(r: Rules, sure: set<string>, n: Node, who: string, s: set<string>,
                                           problems: seq<Problem>, o: Outcome)
    requires Monotone(n) && Answered(r, n, who, s, problems) && o in Fired(r, sure, n, s)
    ensures OutcomeAnswered(r, o, who, s, problems)
    decreases n
  {
    if !IsFixed(n) {
      match n
      case Chain(op, children) =>
        FiredByOne(r, sure, children, s, o);
        var i :| 0 <= i < |children| && o in Fired(r, sure, children[i], s);
        FiredIsAnswered(r, sure, children[i], who, s, problems, o);
      case Conditional(op, then_, cond, other) =>
        WasPositive(r, cond, s);
        FiredIsAnswered(r, sure, then_, who, s, problems, o);
    }
  }

  lemma NeedFiredIsAnswered(r: Rules, sure: set<string>, cap: string, atRoot: bool, who: string, s: set<string>,
                            problems: seq<Problem>,
                            o: Outcome)
    requires NeedMonotone(r, cap) && NeedAnswered(r, cap, atRoot, who, s, problems) && o in FiredNeed(r, sure, cap, atRoot, s)
    ensures OutcomeAnswered(r, o, who, s, problems)
  {
    var base := r.strip(cap);
    if r.rich(base) && r.read(base).Some? { FiredIsAnswered(r, sure, r.read(base).value, who, s, problems, o); }
  }

  /** The monotone fragment has no `unless`, so what is sure does not matter to what fires. */
  lemma {:induction false} FiresAlike(r: Rules, sure: set<string>, sure': set<string>, n: Node, s: set<string>)
    requires Monotone(n)
    ensures Fired(r, sure, n, s) == Fired(r, sure', n, s)
    decreases n
  {
    if !IsFixed(n) {
      match n
      case Chain(op, children) => AllFireAlike(r, sure, sure', children, s);
      case Conditional(op, then_, cond, other) => FiresAlike(r, sure, sure', then_, s);
    }
  }

  lemma {:induction false} AllFireAlike(r: Rules, sure: set<string>, sure': set<string>, ns: seq<Node>, s: set<string>)
    requires forall i :: 0 <= i < |ns| ==> Monotone(ns[i])
    ensures FiredAll(r, sure, ns, s) == FiredAll(r, sure', ns, s)
    decreases ns
  {
    if ns != [] {
      FiresAlike(r, sure, sure', ns[0], s);
      assert forall i :: 0 <= i < |ns[1..]| ==> ns[1..][i] == ns[i + 1];
      AllFireAlike(r, sure, sure', ns[1..], s);
    }
  }

  lemma NeedFiresAlike(r: Rules, sure: set<string>, sure': set<string>, cap: string, atRoot: bool, s: set<string>)
    requires NeedMonotone(r, cap)
    ensures FiredNeed(r, sure, cap, atRoot, s) == FiredNeed(r, sure', cap, atRoot, s)
  {
    var base := r.strip(cap);
    if r.rich(base) && r.read(base).Some? { FiresAlike(r, sure, sure', r.read(base).value, s); }
  }

  // ── Without `unless`, the last pass asks what the pass before it asked ─

  predicate UnlessFree(n: Node) {
    match n
    case Cap(_) => true
    case Chain(_, children) => forall i :: 0 <= i < |children| ==> UnlessFree(children[i])
    case Minus(_, _) => true
    case Conditional(op, then_, _, other) =>
      op.If? && UnlessFree(then_) && (other.Some? ==> UnlessFree(other.value))
  }

  ghost predicate NeedUnlessFree(r: Rules, cap: string) {
    r.rich(r.strip(cap)) && r.read(r.strip(cap)).Some? ==> UnlessFree(r.read(r.strip(cap)).value)
  }

  /** Every requirement at the root, and every one of a package in `s`. */
  ghost predicate AllUnlessFree(r: Rules, extra: seq<(string, string)>, s: set<string>) {
    && (forall i :: 0 <= i < |extra| ==> NeedUnlessFree(r, extra[i].0))
    && (forall p, i :: p in s && 0 <= i < |Needs(r, p)| ==> NeedUnlessFree(r, Needs(r, p)[i]))
  }

  ghost predicate WaitsUnlessFree(ps: seq<Pending>) {
    forall p :: p in ps ==> UnlessFree(p.node)
  }

  lemma {:induction false} DemandUnlessFree(r: Rules, s: set<string>, n: Node, who: string, final: bool)
    requires UnlessFree(n)
    ensures WaitsUnlessFree(Demand(r, s, n, who, final).pending)
    ensures Demand(r, s, n, who, true) == Demand(r, s, n, who, false)
    decreases n
  {
    if !IsFixed(n) {
      match n
      case Chain(op, children) => DemandAllUnlessFree(r, s, children, who, final);
      case Conditional(op, then_, cond, other) =>
        DemandUnlessFree(r, s, then_, who, final);
        if other.Some? { DemandUnlessFree(r, s, other.value, who, final); }
    }
  }

  lemma {:induction false} DemandAllUnlessFree(r: Rules, s: set<string>, ns: seq<Node>, who: string, final: bool)
    requires forall i :: 0 <= i < |ns| ==> UnlessFree(ns[i])
    ensures WaitsUnlessFree(DemandAll(r, s, ns, who, final).pending)
    ensures DemandAll(r, s, ns, who, true) == DemandAll(r, s, ns, who, false)
    decreases ns
  {
    if ns != [] {
      DemandUnlessFree(r, s, ns[0], who, final);
      assert forall i :: 0 <= i < |ns[1..]| ==> ns[1..][i] == ns[i + 1];
      DemandAllUnlessFree(r, s, ns[1..], who, final);
    }
  }

  lemma NeedWaitsUnlessFree(r: Rules, s: set<string>, cap: string, atRoot: bool, who: string)
    requires NeedUnlessFree(r, cap)
    ensures WaitsUnlessFree(DemandNeed(r, s, cap, atRoot, who).pending)
  {
    var base := r.strip(cap);
    if r.rich(base) && r.read(base).Some? { DemandUnlessFree(r, s, r.read(base).value, who, false); }
  }

  // ── One step of the run ──────────────────────────────────────────────

  /** In the monotone fragment, the run stays inside every closed set. */
  ghost predicate SoundForAll(r: Rules, roots: seq<string>, extra: seq<(string, string)>, b: Books) {
    AllMonotone(r, extra, b.reached) && ChoicesStand(r) ==>
      forall t {:trigger ClosedUnder(r, roots, extra, t)} :: ClosedUnder(r, roots, extra, t) ==> Sound(r, b, t)
  }

  /** The bounds every step keeps, besides accounting for requirements. */
  ghost predicate InBounds(r: Rules, roots: seq<string>, extra: seq<(string, string)>, b: Books) {
    && Bounded(r, roots, extra, b)
    && SoundForAll(r, roots, extra, b)
    && (AllUnlessFree(r, extra, b.reached) ==> WaitsUnlessFree(b.pending))
  }

  /** Asking for one requirement of a visited package keeps the bounds. */
  lemma NeedStep(r: Rules, roots: seq<string>, extra: seq<(string, string)>, s: set<string>, b: Books, p: string,
                 i: nat)
    requires InBounds(r, roots, extra, b) && s <= b.reached && p in b.reached && i < |Needs(r, p)|
    ensures var c := After(b, DemandNeed(r, s, Needs(r, p)[i], false, p));
      InBounds(r, roots, extra, c) && NeedCovered(r, Needs(r, p)[i], false, p, c) && Advances(r, b, c)
  {
    var cap, sure := Needs(r, p)[i], Inevitable(r, roots, extra);
    var e := DemandNeed(r, s, cap, false, p);
    var c := After(b, e);
    AfterEnters(r, b, e);
    NeedCovers(r, s, cap, false, p, c);
    NeedVoiced(r, sure, extra, s, b.reached, cap, false, p);
    EnteredBounded(r, roots, extra, b, e, p, c);
    if AllMonotone(r, extra, c.reached) && ChoicesStand(r) {
      NeedQuiet(r, s, cap, false, p);
      forall t | ClosedUnder(r, roots, extra, t) ensures Sound(r, c, t) {
        NeedInside(r, s, cap, false, p, t);
        AfterSound(r, b, e, t);
      }
    }
    if AllUnlessFree(r, extra, c.reached) { NeedWaitsUnlessFree(r, s, cap, false, p); }
  }

  /** So does asking for one requirement at the root. */
  lemma ExtraStep(r: Rules, roots: seq<string>, extra: seq<(string, string)>, s: set<string>, b: Books, i: nat)
    requires InBounds(r, roots, extra, b) && s <= b.reached && i < |extra|
    ensures var c := After(b, DemandNeed(r, s, extra[i].0, true, extra[i].1));
      InBounds(r, roots, extra, c) && NeedCovered(r, extra[i].0, true, extra[i].1, c) && Advances(r, b, c)
  {
    var cap, who, sure := extra[i].0, extra[i].1, Inevitable(r, roots, extra);
    var e := DemandNeed(r, s, cap, true, who);
    var c := After(b, e);
    AfterEnters(r, b, e);
    NeedCovers(r, s, cap, true, who, c);
    NeedVoiced(r, sure, extra, s, b.reached, cap, true, who);
    EnteredBounded(r, roots, extra, b, e, who, c);
    if AllMonotone(r, extra, c.reached) && ChoicesStand(r) {
      NeedQuiet(r, s, cap, true, who);
      forall t | ClosedUnder(r, roots, extra, t) ensures Sound(r, c, t) {
        NeedInside(r, s, cap, true, who, t);
        AfterSound(r, b, e, t);
      }
    }
    if AllUnlessFree(r, extra, c.reached) { NeedWaitsUnlessFree(r, s, cap, true, who); }
  }

  /** Books with one expression taken off the waiting list, answered, and what it set aside added. */
  ghost function Retried(b: Books, still: seq<Pending>, rest: seq<Pending>, pd: Pending, e: Effect): Books {
    Books(b.reached + (if e.got.Some? then set p | p in e.got.value else {}),
          (if e.got.None? then still + [pd] else still) + (rest + e.pending),
          b.choices + e.choices, b.problems + e.problems)
  }

  /** Retrying a waiting expression keeps the bounds, and it is accounted for either way. */
  lemma RetryStep(r: Rules, roots: seq<string>, extra: seq<(string, string)>, s: set<string>, b: Books,
                  still: seq<Pending>, pd: Pending, rest: seq<Pending>, final: bool)
    requires InBounds(r, roots, extra, b) && s <= b.reached && b.pending == still + [pd] + rest
    requires final ==> Inevitable(r, roots, extra) <= s
    ensures var c := Retried(b, still, rest, pd, Demand(r, s, pd.node, pd.who, final));
      InBounds(r, roots, extra, c) && Advances(r, b, c)
  {
    var e, sure := Demand(r, s, pd.node, pd.who, final), Inevitable(r, roots, extra);
    var c := Retried(b, still, rest, pd, e);
    assert pd in b.pending;
    assert forall p :: p in still || p in rest ==> p in b.pending;
    assert forall p :: p in c.pending ==> p in b.pending || p in e.pending;
    assert forall p :: p in b.pending && p != pd ==> p in c.pending;
    DemandVoices(r, sure, s, pd.node, pd.who, final);
    VoicesVoiced(r, sure, extra, e, pd.node, s, b.reached, pd.who);
    EnteredBounded(r, roots, extra, b, e, pd.who, c);
    RetrySound(r, roots, extra, s, b, pd, c, final);
    if AllUnlessFree(r, extra, c.reached) { DemandUnlessFree(r, s, pd.node, pd.who, final); }
    assert Entered(e, c);
    if e.got.Some? {
      DemandCovers(r, s, pd.node, pd.who, final, c);
    } else {
      assert pd in c.pending;
    }
  }

  lemma RetrySound(r: Rules, roots: seq<string>, extra: seq<(string, string)>, s: set<string>, b: Books, pd: Pending,
                   c: Books, final: bool)
    requires SoundForAll(r, roots, extra, b) && s <= b.reached && pd in b.pending
    requires var e := Demand(r, s, pd.node, pd.who, final);
      && c.reached == b.reached + (if e.got.Some? then set p | p in e.got.value else {})
      && (forall p :: p in c.pending ==> p in b.pending || p in e.pending)
      && c.choices == b.choices + e.choices
    ensures SoundForAll(r, roots, extra, c)
  {
    if AllMonotone(r, extra, c.reached) && ChoicesStand(r) {
      forall t | ClosedUnder(r, roots, extra, t) ensures Sound(r, c, t) {
        DemandQuiet(r, s, pd.node, pd.who, final);
        DemandInside(r, s, pd.node, pd.who, final, t);
      }
    }
  }

  /** Is one of the alternatives there? */
  predicate AnyPresent(r: Rules, alternatives: seq<string>, s: set<string>) {
    exists i :: 0 <= i < |alternatives| && Present(r, alternatives[i], s)
  }

  /** Books with one choice looked at again. */
  ghost function Reviewed(r: Rules, s: set<string>, b: Books, still: seq<Choice>, ch: Choice,
                          rest: seq<Choice>): Books
  {
    if AnyPresent(r, ch.alternatives, s) then b.(choices := still + rest)
    else if ch.expression in r.overrides then
      b.(reached := b.reached + {r.overrides[ch.expression]}, choices := still + rest)
    else b.(choices := still + [ch] + rest)
  }

  /** Dropping a choice that is met, or meeting it with an override, keeps the bounds. */
  lemma ReviewStep(r: Rules, roots: seq<string>, extra: seq<(string, string)>, s: set<string>, b: Books,
                   still: seq<Choice>, ch: Choice, rest: seq<Choice>)
    requires InBounds(r, roots, extra, b) && s <= b.reached && b.choices == still + [ch] + rest
    ensures var c := Reviewed(r, s, b, still, ch, rest); InBounds(r, roots, extra, c) && Advances(r, b, c)
  {
    ReviewedAdvances(r, s, b, still, ch, rest);
    ReviewedBounded(r, roots, extra, s, b, still, ch, rest);
    ReviewedSound(r, roots, extra, s, b, still, ch, rest);
  }

  lemma ReviewedAdvances(r: Rules, s: set<string>, b: Books, still: seq<Choice>, ch: Choice, rest: seq<Choice>)
    requires s <= b.reached && b.choices == still + [ch] + rest
    ensures Advances(r, b, Reviewed(r, s, b, still, ch, rest))
  {
    var c := Reviewed(r, s, b, still, ch, rest);
    assert forall x :: x in b.choices && x != ch ==> x in c.choices;
    if AnyPresent(r, ch.alternatives, s) {
      var i :| 0 <= i < |ch.alternatives| && Present(r, ch.alternatives[i], s);
      PresentMonotone(r, ch.alternatives[i], s, c.reached);
    }
  }

  lemma ReviewedBounded(r: Rules, roots: seq<string>, extra: seq<(string, string)>, s: set<string>, b: Books,
                        still: seq<Choice>, ch: Choice, rest: seq<Choice>)
    requires Bounded(r, roots, extra, b) && b.choices == still + [ch] + rest
    ensures Bounded(r, roots, extra, Reviewed(r, s, b, still, ch, rest))
  {
    var sure := Inevitable(r, roots, extra);
    var c := Reviewed(r, s, b, still, ch, rest);
    assert ch in b.choices && ChoiceVoiced(r, sure, extra, b.reached, ch);
    assert forall x :: x in c.choices ==> x in b.choices;
    RecordsGrow(r, sure, extra, b.reached, c);
    forall p | p in c.reached ensures Wanted(r, roots, extra, c.reached, p) && p in Universe(r, roots, extra) {
      if p in b.reached {
        WantedGrows(r, roots, extra, b.reached, c.reached, p);
      } else {
        VoicedGrows(r, sure, extra, b.reached, c.reached, Ask(ch.expression, ch.alternatives), ch.who);
        assert r.overrides[ch.expression] == p && p in r.overrides.Values;
      }
    }
  }

  lemma ReviewedSound(r: Rules, roots: seq<string>, extra: seq<(string, string)>, s: set<string>, b: Books,
                      still: seq<Choice>, ch: Choice, rest: seq<Choice>)
    requires SoundForAll(r, roots, extra, b) && b.choices == still + [ch] + rest
    ensures SoundForAll(r, roots, extra, Reviewed(r, s, b, still, ch, rest))
  {
    var c := Reviewed(r, s, b, still, ch, rest);
    assert ch in b.choices && forall x :: x in c.choices ==> x in b.choices;
    if AllMonotone(r, extra, c.reached) && ChoicesStand(r) {
      forall t | ClosedUnder(r, roots, extra, t) ensures Sound(r, c, t) {
        assert Sound(r, b, t);
      }
    }
  }
}
