/** Which branches of a requirement a run can have taken, seen from the closure it ends with. */
module ClosureBranches {
  import opened Options
  import opened BooleanScan
  import opened BooleanDeps
  import opened ClosureRules
  import opened ClosureInvariant
  import opened ClosureFixpoint

  /** The condition was found so of some part of the closure: of what there was when it was asked about, `least` included. */
  ghost predicate Was(r: Rules, least: set<string>, cond: Node, s: set<string>, found: bool) {
    exists t {:trigger Satisfied(r, cond, t)} :: least <= t <= s && Satisfied(r, cond, t) == found
  }

  /** A condition that stays true was true if it is. */
  lemma WasPositive(r: Rules, cond: Node, s: set<string>)
    requires Positive(cond)
    ensures Was(r, {}, cond, s, true) <==> Satisfied(r, cond, s)
  {
    if Was(r, {}, cond, s, true) {
      var t :| t <= s && Satisfied(r, cond, t);
      SatisfiedMonotone(r, cond, t, s);
    }
  }

  /**
   * The outcomes of the branches that can have been taken by the time the
   * closure was `s`.  An `unless` is read as not let off only when nothing else
   * moves, so with all that is `sure` in the closure.
   */
  ghost function Fired(r: Rules, sure: set<string>, n: Node, s: set<string>): set<Outcome>
    decreases n
  {
    if IsFixed(n) then {FixedOutcome(r, n)}
    else match n
      case Chain(op, children) =>
        if op.And? then FiredAll(r, sure, children, s) else if Was(r, {}, n, s, false) then {OrOutcome(r, n)} else {}
      case Conditional(op, then_, cond, other) =>
        if op.If? || op.Unless? then
          (if Was(r, if op.Unless? then sure else {}, cond, s, op.If?) then Fired(r, sure, then_, s) else {})
          + (if other.Some? && Was(r, {}, cond, s, op.Unless?) then Fired(r, sure, other.value, s) else {})
        else {Report(Unreadable(r.show(n)))}
  }

  ghost function FiredAll(r: Rules, sure: set<string>, ns: seq<Node>, s: set<string>): set<Outcome>
    decreases ns
  {
    if ns == [] then {} else Fired(r, sure, ns[0], s) + FiredAll(r, sure, ns[1..], s)
  }

  ghost function FiredNeed(r: Rules, sure: set<string>, cap: string, atRoot: bool, s: set<string>): set<Outcome> {
    if r.rich(r.strip(cap)) then
      (if r.read(r.strip(cap)).Some? then Fired(r, sure, r.read(r.strip(cap)).value, s)
       else {Report(Unreadable(r.strip(cap)))})
    else {PlainOutcome(r, cap, atRoot)}
  }

  /** A conditional whose condition does not hold asks for nothing and is no problem. */
  lemma NotRequired(r: Rules, sure: set<string>, then_: Node, cond: Node, s: set<string>)
    requires Positive(cond) && !Satisfied(r, cond, s)
    ensures Fired(r, sure, Conditional(If, then_, cond, None), s) == {}
  {
    WasPositive(r, cond, s);
  }

  /** An `unless` whose condition is met by what is sure asks for nothing and is no problem, whatever else comes. */
  lemma Excused(r: Rules, sure: set<string>, then_: Node, cond: Node, s: set<string>)
    requires Positive(cond) && Satisfied(r, cond, sure)
    ensures Fired(r, sure, Conditional(Unless, then_, cond, None), s) == {}
  {
    forall t | sure <= t <= s ensures Satisfied(r, cond, t) {
      SatisfiedMonotone(r, cond, sure, t);
    }
  }

  /** Branches that were taken stay taken, and are among those there are. */
  lemma {:induction false} FiredGrows(r: Rules, sure: set<string>, n: Node, s: set<string>, t: set<string>)
    requires s <= t
    ensures Fired(r, sure, n, s) <= Fired(r, sure, n, t) <= May(r, n)
    decreases n
  {
    if !IsFixed(n) {
      match n
      case Chain(op, children) => if op.And? { FiredAllGrows(r, sure, children, s, t); }
      case Conditional(op, then_, cond, other) =>
        FiredGrows(r, sure, then_, s, t);
        if other.Some? { FiredGrows(r, sure, other.value, s, t); }
    }
  }

  lemma {:induction false} FiredAllGrows(r: Rules, sure: set<string>, ns: seq<Node>, s: set<string>, t: set<string>)
    requires s <= t
    ensures FiredAll(r, sure, ns, s) <= FiredAll(r, sure, ns, t) <= MayAll(r, ns)
    decreases ns
  {
    if ns != [] {
      FiredGrows(r, sure, ns[0], s, t);
      FiredAllGrows(r, sure, ns[1..], s, t);
    }
  }

  /** The more is sure, the fewer an `unless` can ask for. */
  lemma {:induction false} FiresAtMost(r: Rules, sure: set<string>, n: Node, s: set<string>)
    ensures Fired(r, sure, n, s) <= Fired(r, {}, n, s)
    decreases n
  {
    if !IsFixed(n) {
      match n
      case Chain(op, children) => if op.And? { AllFireAtMost(r, sure, children, s); }
      case Conditional(op, then_, cond, other) =>
        FiresAtMost(r, sure, then_, s);
        if other.Some? { FiresAtMost(r, sure, other.value, s); }
    }
  }

  lemma {:induction false} AllFireAtMost(r: Rules, sure: set<string>, ns: seq<Node>, s: set<string>)
    ensures FiredAll(r, sure, ns, s) <= FiredAll(r, {}, ns, s)
    decreases ns
  {
    if ns != [] {
      FiresAtMost(r, sure, ns[0], s);
      AllFireAtMost(r, sure, ns[1..], s);
    }
  }

  lemma NeedGrows(r: Rules, sure: set<string>, cap: string, atRoot: bool, s: set<string>, t: set<string>)
    requires s <= t
    ensures FiredNeed(r, sure, cap, atRoot, s) <= FiredNeed(r, sure, cap, atRoot, t) <= MayNeed(r, cap, atRoot)
  {
    var base := r.strip(cap);
    if r.rich(base) && r.read(base).Some? { FiredGrows(r, sure, r.read(base).value, s, t); }
  }

  // ── An effect voices only what has fired ─────────────────────────────

  /** From `s` on, whatever fires in one expression fires in the other. */
  ghost predicate PartOf(r: Rules, sure: set<string>, part: Node, n: Node, s: set<string>) {
    forall t :: s <= t ==> Fired(r, sure, part, t) <= Fired(r, sure, n, t)
  }

  /** Whatever an effect demands, sets aside or records comes of branches of `n` taken at `s`, asked for by `who`. */
  ghost predicate Voices(r: Rules, sure: set<string>, e: Effect, n: Node, s: set<string>, who: string) {
    && (e.got.Some? ==> forall p :: p in e.got.value ==> Take(p) in Fired(r, sure, n, s))
    && (forall p :: p in e.pending ==> PartOf(r, sure, p.node, n, s) && p.who == who)
    && (forall c :: c in e.choices ==> Ask(c.expression, c.alternatives) in Fired(r, sure, n, s) && c.who == who)
    && (forall q :: q in e.problems ==> q.Problem? && Report(q.issue) in Fired(r, sure, n, s) && q.who == who)
  }

  lemma VoicesThrough(r: Rules, sure: set<string>, e: Effect, part: Node, n: Node, s: set<string>, who: string)
    requires Voices(r, sure, e, part, s, who) && PartOf(r, sure, part, n, s)
    ensures Voices(r, sure, e, n, s, who)
  {
    assert Fired(r, sure, part, s) <= Fired(r, sure, n, s);
    forall p | p in e.pending ensures PartOf(r, sure, p.node, n, s) {
      assert PartOf(r, sure, p.node, part, s);
    }
  }

  /** The branch of a conditional that its condition selects now; of an `unless`, with all that is sure there. */
  lemma TakenIsPart(r: Rules, sure: set<string>, n: Node, s: set<string>, part: Node)
    requires n.Conditional? && (n.op.If? || n.op.Unless?)
    requires if Satisfied(r, n.cond, s) == n.op.If? then part == n.then_ && (n.op.Unless? ==> sure <= s)
             else n.other == Some(part)
    ensures PartOf(r, sure, part, n, s)
  {
    forall t | s <= t ensures Fired(r, sure, part, t) <= Fired(r, sure, n, t) {
      if Satisfied(r, n.cond, s) == n.op.If? {
        assert Was(r, if n.op.Unless? then sure else {}, n.cond, t, n.op.If?);
      } else {
        assert Was(r, {}, n.cond, t, n.op.Unless?);
      }
    }
  }

  lemma {:induction false} DemandVoices(r: Rules, sure: set<string>, s: set<string>, n: Node, who: string, final: bool)
    requires final ==> sure <= s
    ensures Voices(r, sure, Demand(r, s, n, who, final), n, s, who)
    decreases n
  {
    if !IsFixed(n) {
      match n
      case Chain(op, children) =>
        if op.And? { DemandAllVoices(r, sure, s, n, children, who, final); }
      case Conditional(op, then_, cond, other) =>
        if Satisfied(r, cond, s) == op.If? {
          if op.If? || (op.Unless? && final) {
            DemandVoices(r, sure, s, then_, who, final);
            TakenIsPart(r, sure, n, s, then_);
            VoicesThrough(r, sure, Demand(r, s, then_, who, final), then_, n, s, who);
          }
        } else if other.Some? && (op.If? || op.Unless?) {
          DemandVoices(r, sure, s, other.value, who, final);
          TakenIsPart(r, sure, n, s, other.value);
          VoicesThrough(r, sure, Demand(r, s, other.value, who, final), other.value, n, s, who);
        }
    }
  }

  /** The conjuncts of `n`, from one of them on. */
  lemma {:induction false} DemandAllVoices(r: Rules, sure: set<string>, s: set<string>, n: Node, ns: seq<Node>,
                                           who: string, final: bool)
    requires final ==> sure <= s
    requires forall t :: s <= t ==> FiredAll(r, sure, ns, t) <= Fired(r, sure, n, t)
    ensures Voices(r, sure, DemandAll(r, s, ns, who, final), n, s, who)
    decreases ns
  {
    if ns != [] {
      var e := Demand(r, s, ns[0], who, final);
      assert PartOf(r, sure, ns[0], n, s);
      DemandVoices(r, sure, s, ns[0], who, final);
      VoicesThrough(r, sure, e, ns[0], n, s, who);
      DemandAllVoices(r, sure, s, n, ns[1..], who, final);
    }
  }
}
