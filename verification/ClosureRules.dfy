/**
 * What one requirement asks of the closure so far.
 *
 * The rules are a record of functions: how a capability's text is read and
 * resolved is settled elsewhere, and nothing here depends on it.
 */
module ClosureRules {
  import opened Options
  import opened BooleanDeps
  import opened Provider

  datatype Rules = Rules(
    strip: string -> string,             // a capability without its version constraint
    rich: string -> bool,                // is it a boolean expression?
    read: string -> Option<Node>,        // the tree of an expression, if it is understood
    show: Node -> string,                // an expression as an override would name it
    resolve: string -> Resolution,       // a capability, constraint included
    resolveBare: string -> Resolution,   // the same, versions ignored
    range: seq<string> -> Resolution,    // several bounds on one capability
    rangeText: seq<string> -> string,
    fits: (seq<string>, string) -> bool, // does a package meet every one of several bounds?
    providers: string -> seq<string>,    // who provides a name
    common: seq<string> -> seq<string>,  // sorted, providing every one of several names
    without: (string, string) -> seq<string>, // sorted, providing the first and not the second
    overrides: map<string, string>,
    needs: map<string, seq<string>>)     // what each package requires

  function Needs(r: Rules, pkg: string): seq<string> {
    if pkg in r.needs then r.needs[pkg] else []
  }

  // ── Questions about the closure so far ───────────────────────────────

  /** Is the capability there already? */
  predicate Present(r: Rules, cap: string, s: set<string>) {
    if cap in r.overrides then r.overrides[cap] in s
    else exists i :: 0 <= i < |r.providers(cap)| && r.providers(cap)[i] in s
  }

  /** Is the expression true of the closure so far? */
  predicate Satisfied(r: Rules, n: Node, s: set<string>) {
    match n
    case Cap(text) => Present(r, r.strip(text), s)
    case Chain(op, children) =>
      if op.Or? then exists i :: 0 <= i < |children| && Satisfied(r, children[i], s)
      else (op.And? || op.With?) && forall i :: 0 <= i < |children| ==> Satisfied(r, children[i], s)
    case Minus(left, right) => Satisfied(r, left, s) && !Satisfied(r, right, s)
    case Conditional(op, then_, cond, other) =>
      if op.If? then
        if Satisfied(r, cond, s) then Satisfied(r, then_, s) else other.Some? ==> Satisfied(r, other.value, s)
      else if op.Unless? then
        if Satisfied(r, cond, s) then other.Some? ==> Satisfied(r, other.value, s) else Satisfied(r, then_, s)
      else false
  }

  // ── Leaves ───────────────────────────────────────────────────────────

  /** Every bare name an expression of `and`, `or` and `with` mentions. */
  function LeafNames(r: Rules, n: Node): Option<seq<string>>
    decreases n, 0
  {
    match n
    case Cap(text) => Some([r.strip(text)])
    case Chain(op, children) => if op.And? || op.Or? || op.With? then LeafNamesAll(r, children) else None
    case _ => None
  }

  function LeafNamesAll(r: Rules, ns: seq<Node>): Option<seq<string>>
    decreases ns
  {
    if ns == [] then Some([])
    else
      var first, rest := LeafNames(r, ns[0]), LeafNamesAll(r, ns[1..]);
      if first.None? || rest.None? then None else Some(first.value + rest.value)
  }

  /** The bounds of a `with` chain, constraints intact. */
  function LeafCaps(n: Node): Option<seq<string>>
    decreases n, 0
  {
    match n
    case Cap(text) => Some([text])
    case Chain(op, children) => if op.With? then LeafCapsAll(children) else None
    case _ => None
  }

  function LeafCapsAll(ns: seq<Node>): Option<seq<string>> {
    if ns == [] then Some([])
    else
      var first, rest := LeafCaps(ns[0]), LeafCapsAll(ns[1..]);
      if first.None? || rest.None? then None else Some(first.value + rest.value)
  }

  // ── What a requirement comes to ──────────────────────────────────────

  datatype Issue =
    | Unresolved(expression: string, why: Resolution)
    | Unreadable(expression: string)
    | NotOne(expression: string, candidates: seq<string>)

  /** A question with one answer, whatever else is in the closure. */
  datatype Outcome =
    | Take(pkg: string)
    | Report(issue: Issue)
    | Ask(expression: string, alternatives: seq<string>)

  function OfResolution(res: Resolution, expression: string): Outcome {
    match res
    case Chosen(pkg) => Take(pkg)
    case Ambiguous(candidates) => Ask(expression, candidates)
    case _ => Report(Unresolved(expression, res))
  }

  /** Providers of every leaf of a `with`, or of the left leaf of a `without` and not the right one. */
  function Intersect(r: Rules, n: Node): Option<seq<string>> {
    match n
    case Chain(op, _) =>
      var names := LeafNames(r, n);
      if !op.With? || names.None? || names.value == [] then None else Some(r.common(names.value))
    case Minus(left, right) =>
      var a, b := LeafNames(r, left), LeafNames(r, right);
      if a.None? || a.value == [] || b.None? || b.value == [] then None
      else Some(r.without(a.value[0], b.value[0]))
    case _ => None
  }

  predicate AllSame(xs: seq<string>) {
    forall i :: 0 <= i < |xs| ==> xs[i] == xs[0]
  }

  /** A `with` chain over one capability: a version range. */
  predicate IsRange(r: Rules, n: Node) {
    && n.Chain? && n.op.With?
    && LeafNames(r, n).Some? && LeafNames(r, n).value != [] && AllSame(LeafNames(r, n).value)
    && LeafCaps(n).Some? && LeafCaps(n).value != []
  }

  /** `cap`, `with` and `without`: nothing depends on what is in the closure. */
  predicate IsFixed(n: Node) {
    n.Cap? || n.Minus? || (n.Chain? && !n.op.And? && !n.op.Or?)
  }

  /** An override named by the text of a `with` or `without` answers it: it is no range, and no one package does. */
  predicate Overruled(r: Rules, n: Node)
    requires IsFixed(n)
  {
    && !n.Cap? && (n.Chain? ==> n.op.With?) && !IsRange(r, n)
    && Intersect(r, n).Some? && |Intersect(r, n).value| != 1 && r.show(n) in r.overrides
  }

  function FixedOutcome(r: Rules, n: Node): Outcome
    requires IsFixed(n)
  {
    if n.Cap? then OfResolution(r.resolve(r.strip(n.text)), r.strip(n.text))
    else if n.Chain? && !n.op.With? then Report(Unreadable(r.show(n)))
    else if IsRange(r, n) then
      OfResolution(r.range(LeafCaps(n).value), r.rangeText(LeafCaps(n).value))
    else
      var candidates := Intersect(r, n);
      if candidates.None? then Report(Unreadable(r.show(n)))
      else if |candidates.value| == 1 then Take(candidates.value[0])
      else if r.show(n) in r.overrides then Take(r.overrides[r.show(n)])
      else Report(NotOne(r.show(n), candidates.value))
  }

  /** The providers of the alternatives something provides; `None` if one of them is ambiguous. */
  function Live(r: Rules, names: seq<string>): Option<set<string>> {
    if names == [] then Some({})
    else
      match r.resolveBare(names[0])
      case Chosen(pkg) =>
        var rest := Live(r, names[1..]);
        if rest.None? then None else Some({pkg} + rest.value)
      case Ambiguous(_) => None
      case _ => Live(r, names[1..])
  }

  /** An `or` none of whose branches is there yet. */
  function OrOutcome(r: Rules, n: Node): Outcome {
    var names := LeafNames(r, n);
    if names.None? then Report(Unreadable(r.show(n)))
    else if r.show(n) in r.overrides then Take(r.overrides[r.show(n)])
    else
      var live := Live(r, names.value);
      if live.Some? && |live.value| == 1 then
        OnlyElement(live.value);
        var pkg :| pkg in live.value;
        Take(pkg)
      else Ask(r.show(n), names.value)
  }

  lemma OnlyElement(s: set<string>)
    requires |s| == 1
    ensures exists p :: p in s && s == {p} && forall q :: q in s ==> q == p
  {
    var p :| p in s;
    assert |s - {p}| == 0;
    assert s == {p};
  }

  // ── Effects ──────────────────────────────────────────────────────────

  datatype Pending = Pending(node: Node, who: string)

  datatype Choice = Choice(expression: string, alternatives: seq<string>, who: string)

  datatype Problem = Problem(issue: Issue, who: string) | Undecided(expression: string, alternatives: seq<string>, askers: seq<string>)

  /** Packages demanded now, or `None` to try again later; and what was recorded on the way. */
  datatype Effect = Effect(got: Option<seq<string>>, pending: seq<Pending>, choices: seq<Choice>, problems: seq<Problem>)

  const NOTHING := Effect(Some([]), [], [], [])
  const LATER := Effect(None, [], [], [])

  function Emit(o: Outcome, who: string): Effect {
    match o
    case Take(pkg) => Effect(Some([pkg]), [], [], [])
    case Report(issue) => Effect(Some([]), [], [], [Problem(issue, who)])
    case Ask(expression, alternatives) => Effect(Some([]), [], [Choice(expression, alternatives, who)], [])
  }

  /** What an expression demands when the closure so far is `s`. */
  function Demand(r: Rules, s: set<string>, n: Node, who: string, final: bool): Effect
    decreases n, 0
  {
    if IsFixed(n) then Emit(FixedOutcome(r, n), who)
    else match n
      case Chain(op, children) =>
        if op.And? then DemandAll(r, s, children, who, final)
        else if Satisfied(r, n, s) then NOTHING
        else Emit(OrOutcome(r, n), who)
      case Conditional(op, then_, cond, other) =>
        if op.If? then
          if Satisfied(r, cond, s) then Demand(r, s, then_, who, final)
          else if other.Some? then Demand(r, s, other.value, who, final)
          else LATER
        else if op.Unless? then
          if Satisfied(r, cond, s) then (if other.Some? then Demand(r, s, other.value, who, final) else NOTHING)
          else if final then Demand(r, s, then_, who, final)
          else LATER
        else Emit(Report(Unreadable(r.show(n))), who)
  }

  /** Each conjunct by itself; one that has to wait is set aside and the others go on. */
  function DemandAll(r: Rules, s: set<string>, ns: seq<Node>, who: string, final: bool): (e: Effect)
    ensures e.got.Some?
    decreases ns
  {
    if ns == [] then NOTHING
    else Then(Await(Demand(r, s, ns[0], who, final), ns[0], who), DemandAll(r, s, ns[1..], who, final))
  }

  /** Set a node that has to wait aside. */
  function Await(e: Effect, n: Node, who: string): (e': Effect)
    ensures e'.got.Some?
  {
    if e.got.None? then e.(got := Some([]), pending := e.pending + [Pending(n, who)]) else e
  }

  function Then(a: Effect, b: Effect): Effect
    requires a.got.Some? && b.got.Some?
  {
    Effect(Some(a.got.value + b.got.value), a.pending + b.pending, a.choices + b.choices, a.problems + b.problems)
  }

  /** One rich requirement, deferred if it must be. */
  function DemandRich(r: Rules, s: set<string>, base: string, who: string): (e: Effect)
    ensures e.got.Some?
  {
    var node := r.read(base);
    if node.None? then Emit(Report(Unreadable(base)), who)
    else Await(Demand(r, s, node.value, who, false), node.value, who)
  }

  /** The text a requirement is resolved by: a package's keeps its constraint, a root's has lost it. */
  function Asked(r: Rules, cap: string, atRoot: bool): string {
    if atRoot then r.strip(cap) else cap
  }

  function PlainOutcome(r: Rules, cap: string, atRoot: bool): Outcome {
    OfResolution(r.resolve(Asked(r, cap, atRoot)), Asked(r, cap, atRoot))
  }

  /** One requirement. */
  function DemandNeed(r: Rules, s: set<string>, cap: string, atRoot: bool, who: string): (e: Effect)
    ensures e.got.Some?
  {
    if r.rich(r.strip(cap)) then DemandRich(r, s, r.strip(cap), who)
    else Emit(PlainOutcome(r, cap, atRoot), who)
  }
}
