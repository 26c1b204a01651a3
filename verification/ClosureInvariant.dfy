/** What a run of the closure knows about every requirement it has looked at. */
module ClosureInvariant {
  import opened BooleanDeps
  import opened ClosureRules

  // ── Conditions that stay true ────────────────────────────────────────

  /** Built from capabilities with `and`, `or` and `with`: once true of the closure, always true. */
  predicate Positive(n: Node) {
    match n
    case Cap(_) => true
    case Chain(op, children) => (op.And? || op.Or? || op.With?) && forall i :: 0 <= i < |children| ==> Positive(children[i])
    case _ => false
  }

  lemma PresentMonotone(r: Rules, cap: string, s: set<string>, t: set<string>)
    requires s <= t && Present(r, cap, s)
    ensures Present(r, cap, t)
  {
  }

  lemma {:induction false} SatisfiedMonotone(r: Rules, n: Node, s: set<string>, t: set<string>)
    requires s <= t && Positive(n) && Satisfied(r, n, s)
    ensures Satisfied(r, n, t)
  {
    match n
    case Cap(text) => PresentMonotone(r, r.strip(text), s, t);
    case Chain(op, children) =>
      if op.Or? {
        var i :| 0 <= i < |children| && Satisfied(r, children[i], s);
        SatisfiedMonotone(r, children[i], s, t);
      } else {
        forall i | 0 <= i < |children| ensures Satisfied(r, children[i], t) {
          SatisfiedMonotone(r, children[i], s, t);
        }
      }
  }

  // ── Every requirement is accounted for ───────────────────────────────

  /** The books: packages reached, expressions waiting, choices open, problems recorded. */
  datatype Books = Books(reached: set<string>, pending: seq<Pending>, choices: seq<Choice>, problems: seq<Problem>)

  /** A choice nobody has to make any more: an alternative is there, or an override has decided. */
  ghost predicate ChoiceMet(r: Rules, ch: Choice, reached: set<string>) {
    || (exists i :: 0 <= i < |ch.alternatives| && Present(r, ch.alternatives[i], reached))
    || (ch.expression in r.overrides && r.overrides[ch.expression] in reached)
  }

  ghost predicate OutcomeCovered(r: Rules, o: Outcome, who: string, b: Books) {
    match o
    case Take(pkg) => pkg in b.reached
    case Report(issue) => Problem(issue, who) in b.problems
    case Ask(e, alternatives) => Choice(e, alternatives, who) in b.choices || ChoiceMet(r, Choice(e, alternatives, who), b.reached)
  }

  /** A condition that was found true, if it is one of those that stay true. */
  predicate Settled(r: Rules, cond: Node, s: set<string>) {
    Positive(cond) ==> Satisfied(r, cond, s)
  }

  /**
   * Granted, waiting, open or reported, part by part.  An `if` waits, or has
   * taken a branch; an `unless` waits, or is granted, or was let off.
   */
  ghost predicate Covered(r: Rules, n: Node, who: string, b: Books)
    decreases n
  {
    if IsFixed(n) then OutcomeCovered(r, FixedOutcome(r, n), who, b)
    else match n
      case Chain(op, children) =>
        if op.And? then forall i :: 0 <= i < |children| ==> Covered(r, children[i], who, b)
        else Positive(n) ==> Satisfied(r, n, b.reached) || OutcomeCovered(r, OrOutcome(r, n), who, b)
      case Conditional(op, then_, cond, other) =>
        if op.If? then
          || Pending(n, who) in b.pending
          || (Settled(r, cond, b.reached) && Covered(r, then_, who, b))
          || (other.Some? && Covered(r, other.value, who, b))
        else if op.Unless? then
          || Pending(n, who) in b.pending
          || Covered(r, then_, who, b)
          || (Settled(r, cond, b.reached) && (other.Some? ==> Covered(r, other.value, who, b)))
        else OutcomeCovered(r, Report(Unreadable(r.show(n))), who, b)
      case _ => true
  }

  /** What was recorded has been entered in the books. */
  ghost predicate Entered(e: Effect, b: Books) {
    && (e.got.Some? ==> forall p :: p in e.got.value ==> p in b.reached)
    && (forall p :: p in e.pending ==> p in b.pending)
    && (forall c :: c in e.choices ==> c in b.choices)
    && (forall q :: q in e.problems ==> q in b.problems)
  }

  lemma {:induction false} DemandCovers(r: Rules, s: set<string>, n: Node, who: string, final: bool, b: Books)
    requires s <= b.reached && Entered(Demand(r, s, n, who, final), b)
    requires Demand(r, s, n, who, final).got.None? ==> Pending(n, who) in b.pending
    ensures Covered(r, n, who, b)
    decreases n
  {
    if IsFixed(n) {
      EmitCovers(r, FixedOutcome(r, n), who, b);
    } else {
      match n
      case Chain(op, children) =>
        if op.And? {
          DemandAllCovers(r, s, children, who, final, b);
        } else if Satisfied(r, n, s) {
          if Positive(n) { SatisfiedMonotone(r, n, s, b.reached); }
        } else {
          EmitCovers(r, OrOutcome(r, n), who, b);
        }
      case Conditional(op, then_, cond, other) =>
        if (op.If? || op.Unless?) && Pending(n, who) !in b.pending {
          if Positive(cond) && Satisfied(r, cond, s) { SatisfiedMonotone(r, cond, s, b.reached); }
          if Satisfied(r, cond, s) == op.If? {
            DemandCovers(r, s, then_, who, final, b);
          } else if other.Some? {
            DemandCovers(r, s, other.value, who, final, b);
          }
        } else if !op.If? && !op.Unless? {
          EmitCovers(r, Report(Unreadable(r.show(n))), who, b);
        }
    }
  }

  lemma EmitCovers(r: Rules, o: Outcome, who: string, b: Books)
    requires Entered(Emit(o, who), b)
    ensures OutcomeCovered(r, o, who, b)
  {
    match o
    case Take(pkg) => assert pkg in Emit(o, who).got.value;
    case Report(issue) => assert Problem(issue, who) in Emit(o, who).problems;
    case Ask(e, a) => assert Choice(e, a, who) in Emit(o, who).choices;
  }

  lemma {:induction false} DemandAllCovers(r: Rules, s: set<string>, ns: seq<Node>, who: string, final: bool, b: Books)
    requires s <= b.reached && Entered(DemandAll(r, s, ns, who, final), b)
    ensures forall i :: 0 <= i < |ns| ==> Covered(r, ns[i], who, b)
    decreases ns
  {
    if ns != [] {
      var e := Demand(r, s, ns[0], who, final);
      var first, rest := Await(e, ns[0], who), DemandAll(r, s, ns[1..], who, final);
      EnteredThen(first, rest, b);
      EnteredAwait(e, ns[0], who, b);
      DemandCovers(r, s, ns[0], who, final, b);
      DemandAllCovers(r, s, ns[1..], who, final, b);
      assert forall i :: 0 < i < |ns| ==> ns[i] == ns[1..][i - 1];
    }
  }

  lemma EnteredThen(x: Effect, y: Effect, b: Books)
    requires x.got.Some? && y.got.Some?
    ensures Entered(Then(x, y), b) <==> Entered(x, b) && Entered(y, b)
  {
    var z := Then(x, y);
    assert forall p :: p in z.got.value <==> p in x.got.value || p in y.got.value;
    assert forall p :: p in z.pending <==> p in x.pending || p in y.pending;
    assert forall p :: p in z.choices <==> p in x.choices || p in y.choices;
    assert forall p :: p in z.problems <==> p in x.problems || p in y.problems;
  }

  lemma EnteredAwait(e: Effect, n: Node, who: string, b: Books)
    requires Entered(Await(e, n, who), b)
    ensures Entered(e, b) && (e.got.None? ==> Pending(n, who) in b.pending)
  {
    if e.got.None? {
      assert Pending(n, who) in Await(e, n, who).pending;
      assert forall p :: p in e.pending ==> p in Await(e, n, who).pending;
    }
  }

  /** Later books: nothing reached or reported is lost, and what left the lists was dealt with. */
  ghost predicate Advances(r: Rules, b: Books, c: Books) {
    && b.reached <= c.reached
    && (forall q :: q in b.problems ==> q in c.problems)
    && (forall ch :: ch in b.choices ==> ch in c.choices || ChoiceMet(r, ch, c.reached))
    && (forall p :: p in b.pending ==> p in c.pending || Covered(r, p.node, p.who, c))
  }

  lemma OutcomeAdvances(r: Rules, o: Outcome, who: string, b: Books, c: Books)
    requires Advances(r, b, c) && OutcomeCovered(r, o, who, b)
    ensures OutcomeCovered(r, o, who, c)
  {
    match o
    case Take(_) =>
    case Report(_) =>
    case Ask(e, a) =>
      var ch := Choice(e, a, who);
      if ch !in b.choices { ChoiceMetMonotone(r, ch, b.reached, c.reached); }
  }

  lemma ChoiceMetMonotone(r: Rules, ch: Choice, s: set<string>, t: set<string>)
    requires s <= t && ChoiceMet(r, ch, s)
    ensures ChoiceMet(r, ch, t)
  {
    if i :| 0 <= i < |ch.alternatives| && Present(r, ch.alternatives[i], s) {
      PresentMonotone(r, ch.alternatives[i], s, t);
    }
  }

  lemma {:induction false} CoveredAdvances(r: Rules, n: Node, who: string, b: Books, c: Books)
    requires Advances(r, b, c) && Covered(r, n, who, b)
    ensures Covered(r, n, who, c)
    decreases n
  {
    if IsFixed(n) {
      OutcomeAdvances(r, FixedOutcome(r, n), who, b, c);
    } else {
      match n
      case Chain(op, children) =>
        if op.And? {
          forall i | 0 <= i < |children| ensures Covered(r, children[i], who, c) {
            CoveredAdvances(r, children[i], who, b, c);
          }
        } else if Positive(n) {
          if Satisfied(r, n, b.reached) {
            SatisfiedMonotone(r, n, b.reached, c.reached);
          } else {
            OutcomeAdvances(r, OrOutcome(r, n), who, b, c);
          }
        }
      case Conditional(op, then_, cond, other) =>
        if (op.If? || op.Unless?) && Pending(n, who) !in b.pending {
          if Positive(cond) && Satisfied(r, cond, b.reached) { SatisfiedMonotone(r, cond, b.reached, c.reached); }
          if Covered(r, then_, who, b) { CoveredAdvances(r, then_, who, b, c); }
          if other.Some? && Covered(r, other.value, who, b) { CoveredAdvances(r, other.value, who, b, c); }
        }
    }
  }

  /** One requirement of a package, or of the root, accounted for. */
  ghost predicate NeedCovered(r: Rules, cap: string, atRoot: bool, who: string, b: Books) {
    if r.rich(r.strip(cap)) then
      var node := r.read(r.strip(cap));
      if node.None? then Problem(Unreadable(r.strip(cap)), who) in b.problems
      else Covered(r, node.value, who, b)
    else OutcomeCovered(r, PlainOutcome(r, cap, atRoot), who, b)
  }

  lemma NeedCovers(r: Rules, s: set<string>, cap: string, atRoot: bool, who: string, b: Books)
    requires s <= b.reached && Entered(DemandNeed(r, s, cap, atRoot, who), b)
    ensures NeedCovered(r, cap, atRoot, who, b)
  {
    var base := r.strip(cap);
    if r.rich(base) {
      var node := r.read(base);
      if node.None? {
        EmitCovers(r, Report(Unreadable(base)), who, b);
      } else {
        EnteredAwait(Demand(r, s, node.value, who, false), node.value, who, b);
        DemandCovers(r, s, node.value, who, false, b);
      }
    } else {
      EmitCovers(r, PlainOutcome(r, cap, atRoot), who, b);
    }
  }

  lemma NeedAdvances(r: Rules, cap: string, atRoot: bool, who: string, b: Books, c: Books)
    requires Advances(r, b, c) && NeedCovered(r, cap, atRoot, who, b)
    ensures NeedCovered(r, cap, atRoot, who, c)
  {
    var base := r.strip(cap);
    if r.rich(base) {
      if r.read(base).Some? { CoveredAdvances(r, r.read(base).value, who, b, c); }
    } else {
      OutcomeAdvances(r, PlainOutcome(r, cap, atRoot), who, b, c);
    }
  }
}
