/** Sets of packages closed under their requirements, and what demands stay inside one. */
module ClosureFixpoint {
  import opened BooleanDeps
  import opened ClosureRules
  import opened ClosureInvariant

  // ── What a requirement may come to ───────────────────────────────────

  function Taken(o: Outcome): set<string> {
    if o.Take? then {o.pkg} else {}
  }

  /** Every outcome an expression could come to, whatever is in the closure. */
  function May(r: Rules, n: Node): set<Outcome>
    decreases n
  {
    if IsFixed(n) then {FixedOutcome(r, n)}
    else match n
      case Chain(op, children) => if op.And? then MayAll(r, children) else {OrOutcome(r, n)}
      case Conditional(op, then_, _, other) =>
        if op.If? || op.Unless? then May(r, then_) + (if other.Some? then May(r, other.value) else {})
        else {Report(Unreadable(r.show(n)))}
  }

  function MayAll(r: Rules, ns: seq<Node>): set<Outcome>
    decreases ns
  {
    if ns == [] then {} else May(r, ns[0]) + MayAll(r, ns[1..])
  }

  function MayNeed(r: Rules, cap: string, atRoot: bool): set<Outcome> {
    if r.rich(r.strip(cap)) then
      (if r.read(r.strip(cap)).Some? then May(r, r.read(r.strip(cap)).value)
       else {Report(Unreadable(r.strip(cap)))})
    else {PlainOutcome(r, cap, atRoot)}
  }

  // ── Waiting expressions get smaller ──────────────────────────────────

  function Size(n: Node): (k: nat)
    ensures k > 0
    decreases n
  {
    match n
    case Cap(_) => 1
    case Chain(_, children) => 1 + SizeAll(children)
    case Minus(l, r) => 1 + Size(l) + Size(r)
    case Conditional(_, t, c, other) => 1 + Size(t) + Size(c) + (if other.Some? then Size(other.value) else 0)
  }

  function SizeAll(ns: seq<Node>): nat
    decreases ns
  {
    if ns == [] then 0 else Size(ns[0]) + SizeAll(ns[1..])
  }

  function Weight(ps: seq<Pending>): nat {
    if ps == [] then 0 else Size(ps[0].node) + Weight(ps[1..])
  }

  lemma {:induction false} WeightAppend(a: seq<Pending>, b: seq<Pending>)
    ensures Weight(a + b) == Weight(a) + Weight(b)
  {
    if a == [] {
      assert a + b == b;
    } else {
      assert (a + b)[1..] == a[1..] + b;
      WeightAppend(a[1..], b);
    }
  }

  /** What an expression sets aside while it is answered is smaller than the expression. */
  lemma {:induction false} DemandShrinks(r: Rules, s: set<string>, n: Node, who: string, final: bool)
    ensures Weight(Demand(r, s, n, who, final).pending) < Size(n)
    decreases n
  {
    if !IsFixed(n) {
      match n
      case Chain(op, children) => if op.And? { DemandAllShrinks(r, s, children, who, final); }
      case Conditional(op, then_, cond, other) =>
        DemandShrinks(r, s, then_, who, final);
        if other.Some? { DemandShrinks(r, s, other.value, who, final); }
    }
  }

  lemma {:induction false} DemandAllShrinks(r: Rules, s: set<string>, ns: seq<Node>, who: string, final: bool)
    ensures Weight(DemandAll(r, s, ns, who, final).pending) <= SizeAll(ns)
    decreases ns
  {
    if ns != [] {
      var e := Demand(r, s, ns[0], who, final);
      var first, rest := Await(e, ns[0], who), DemandAll(r, s, ns[1..], who, final);
      DemandShrinks(r, s, ns[0], who, final);
      DemandNoneIsEmpty(r, s, ns[0], who, final);
      DemandAllShrinks(r, s, ns[1..], who, final);
      WeightAppend(first.pending, rest.pending);
      if e.got.None? {
        assert first.pending == [Pending(ns[0], who)];
        assert Weight(first.pending) == Size(ns[0]) + Weight([]);
      }
    }
  }

  /** Waiting records nothing. */
  lemma {:induction false} DemandNoneIsEmpty(r: Rules, s: set<string>, n: Node, who: string, final: bool)
    ensures Demand(r, s, n, who, final).got.None? ==> Demand(r, s, n, who, final) == LATER
    decreases n
  {
    if !IsFixed(n) && n.Conditional? {
      DemandNoneIsEmpty(r, s, n.then_, who, final);
      if n.other.Some? { DemandNoneIsEmpty(r, s, n.other.value, who, final); }
    }
  }

  // ── The least closed set ─────────────────────────────────────────────

  /** `cap`, `with`, `without`, `and`, and `if` without `else` under a positive condition. */
  predicate Monotone(n: Node) {
    IsFixed(n) ||
    match n
    case Chain(op, children) => op.And? && forall i :: 0 <= i < |children| ==> Monotone(children[i])
    case Conditional(op, then_, cond, other) => op.If? && other.None? && Positive(cond) && Monotone(then_)
    case _ => false
  }

  /** Everything the expression demands of a closure `t` is in `t`. */
  ghost predicate Within(r: Rules, n: Node, t: set<string>)
    decreases n
  {
    if IsFixed(n) then Taken(FixedOutcome(r, n)) <= t
    else match n
      case Chain(op, children) => op.And? ==> forall i :: 0 <= i < |children| ==> Within(r, children[i], t)
      case Conditional(op, then_, cond, other) =>
        op.If? && other.None? && Satisfied(r, cond, t) ==> Within(r, then_, t)
      case _ => true
  }

  ghost predicate NeedWithin(r: Rules, cap: string, atRoot: bool, t: set<string>) {
    if r.rich(r.strip(cap)) then r.read(r.strip(cap)).Some? ==> Within(r, r.read(r.strip(cap)).value, t)
    else Taken(PlainOutcome(r, cap, atRoot)) <= t
  }

  ghost predicate NeedMonotone(r: Rules, cap: string) {
    r.rich(r.strip(cap)) && r.read(r.strip(cap)).Some? ==> Monotone(r.read(r.strip(cap)).value)
  }

  /** `t` holds the roots, what the root requirements demand, and what its own packages demand. */
  ghost predicate ClosedUnder(r: Rules, roots: seq<string>, extra: seq<(string, string)>, t: set<string>) {
    && (forall p :: p in roots ==> p in t)
    && (forall i :: 0 <= i < |extra| ==> NeedWithin(r, extra[i].0, true, t))
    && (forall p, i :: p in t && 0 <= i < |Needs(r, p)| ==> NeedWithin(r, Needs(r, p)[i], false, t))
  }

  /** Every requirement at the root, and every one of a package in `s`. */
  ghost predicate AllMonotone(r: Rules, extra: seq<(string, string)>, s: set<string>) {
    && (forall i :: 0 <= i < |extra| ==> NeedMonotone(r, extra[i].0))
    && (forall p, i :: p in s && 0 <= i < |Needs(r, p)| ==> NeedMonotone(r, Needs(r, p)[i]))
  }

  /** Demands and waiting expressions that keep a run inside `t`. */
  ghost predicate Inside(r: Rules, e: Effect, t: set<string>) {
    && (e.got.Some? ==> forall p :: p in e.got.value ==> p in t)
    && (forall p :: p in e.pending ==> Monotone(p.node) && Within(r, p.node, t))
  }

  lemma {:induction false} DemandInside(r: Rules, s: set<string>, n: Node, who: string, final: bool, t: set<string>)
    requires s <= t && Monotone(n) && Within(r, n, t)
    ensures Inside(r, Demand(r, s, n, who, final), t)
    decreases n
  {
    if !IsFixed(n) {
      match n
      case Chain(op, children) => DemandAllInside(r, s, children, who, final, t);
      case Conditional(op, then_, cond, other) =>
        if Satisfied(r, cond, s) {
          SatisfiedMonotone(r, cond, s, t);
          DemandInside(r, s, then_, who, final, t);
        }
    }
  }

  lemma {:induction false} DemandAllInside(r: Rules, s: set<string>, ns: seq<Node>, who: string, final: bool,
                                           t: set<string>)
    requires s <= t && forall i :: 0 <= i < |ns| ==> Monotone(ns[i]) && Within(r, ns[i], t)
    ensures Inside(r, DemandAll(r, s, ns, who, final), t)
    decreases ns
  {
    if ns != [] {
      DemandInside(r, s, ns[0], who, final, t);
      assert forall i :: 0 <= i < |ns[1..]| ==> ns[1..][i] == ns[i + 1];
      DemandAllInside(r, s, ns[1..], who, final, t);
    }
  }

  lemma NeedInside(r: Rules, s: set<string>, cap: string, atRoot: bool, who: string, t: set<string>)
    requires s <= t && NeedMonotone(r, cap) && NeedWithin(r, cap, atRoot, t)
    ensures Inside(r, DemandNeed(r, s, cap, atRoot, who), t)
  {
    var base := r.strip(cap);
    if r.rich(base) && r.read(base).Some? {
      DemandInside(r, s, r.read(base).value, who, false, t);
    }
  }

  /** An expression that still has to wait demands nothing. */
  lemma {:induction false} WaitingIsWithin(r: Rules, n: Node, who: string, final: bool, t: set<string>)
    requires Demand(r, t, n, who, final).got.None?
    ensures Within(r, n, t)
    decreases n
  {
    if !IsFixed(n) && n.Conditional? && n.op.If? && n.other.None? && Satisfied(r, n.cond, t) {
      WaitingIsWithin(r, n.then_, who, final, t);
    }
  }

  /** With nothing that could still fire, what is accounted for is granted. */
  lemma {:induction false} CoveredIsWithin(r: Rules, n: Node, who: string, b: Books, final: bool)
    requires Covered(r, n, who, b)
    requires forall p :: p in b.pending ==> Demand(r, b.reached, p.node, p.who, final).got.None?
    ensures Within(r, n, b.reached)
    decreases n
  {
    if !IsFixed(n) {
      match n
      case Chain(op, children) =>
        if op.And? {
          forall i | 0 <= i < |children| ensures Within(r, children[i], b.reached) {
            CoveredIsWithin(r, children[i], who, b, final);
          }
        }
      case Conditional(op, then_, cond, other) =>
        if Pending(n, who) in b.pending {
          WaitingIsWithin(r, n, who, final, b.reached);
        } else if op.If? && other.None? {
          CoveredIsWithin(r, then_, who, b, final);
        }
    }
  }

  lemma NeedIsWithin(r: Rules, cap: string, atRoot: bool, who: string, b: Books, final: bool)
    requires NeedCovered(r, cap, atRoot, who, b)
    requires forall p :: p in b.pending ==> Demand(r, b.reached, p.node, p.who, final).got.None?
    ensures NeedWithin(r, cap, atRoot, b.reached)
  {
    var base := r.strip(cap);
    if r.rich(base) && r.read(base).Some? {
      CoveredIsWithin(r, r.read(base).value, who, b, final);
    }
  }

  /** There is at most one least closed set. */
  ghost predicate LeastClosed(r: Rules, roots: seq<string>, extra: seq<(string, string)>, s: set<string>) {
    ClosedUnder(r, roots, extra, s) && forall t :: ClosedUnder(r, roots, extra, t) ==> s <= t
  }

  /** So the result does not depend on the order of the roots, of the requirements at the root, or of the work. */
  lemma LeastClosedUnique(r: Rules, roots: seq<string>, extra: seq<(string, string)>, s: set<string>,
                          roots': seq<string>, extra': seq<(string, string)>, s': set<string>)
    requires LeastClosed(r, roots, extra, s) && LeastClosed(r, roots', extra', s')
    requires forall p :: p in roots <==> p in roots'
    requires forall e :: e in extra <==> e in extra'
    ensures s == s'
  {
    SameClosed(r, roots, extra, roots', extra', s);
    SameClosed(r, roots', extra', roots, extra, s');
  }

  lemma SameClosed(r: Rules, roots: seq<string>, extra: seq<(string, string)>,
                   roots': seq<string>, extra': seq<(string, string)>, t: set<string>)
    requires ClosedUnder(r, roots, extra, t)
    requires forall p :: p in roots <==> p in roots'
    requires forall e :: e in extra <==> e in extra'
    ensures ClosedUnder(r, roots', extra', t)
  {
    forall i | 0 <= i < |extra'| ensures NeedWithin(r, extra'[i].0, true, t) {
      assert extra'[i] in extra;
      var j :| 0 <= j < |extra| && extra[j] == extra'[i];
    }
  }
}
