/** What a clean solve means: every requirement of the closure holds in it, or is reported. */
module ClosureMeaning {
  import opened Options
  import opened BooleanScan
  import opened BooleanDeps
  import opened Provider
  import opened ClosureRules
  import opened ClosureInvariant
  import opened ClosureFixpoint
  import opened ClosureRun

  /** Resolution is to be relied on; a package's own name is no expression, and provided by nothing else. */
  ghost predicate Trusty(r: Rules) {
    && Honest(r)
    && (forall k, p :: p in r.providers(k) ==> !r.rich(p))
    && (forall k, p, q :: p in r.providers(k) && q in r.providers(p) ==> q == p)
  }

  /**
   * Resolution answers with providers of what it was asked for, within the
   * bounds it was given, and overrides name providers of their keys: except of
   * keys that are expressions, whose answers settle a choice.
   */
  ghost predicate Honest(r: Rules) {
    && (forall c {:trigger r.resolve(c)} :: !r.rich(c) ==> ResolvesTruly(r, r.resolve(c), r.strip(c), c))
    && (forall c {:trigger r.resolveBare(c)} ::
          !r.rich(c) && r.resolveBare(c).Chosen? ==> r.resolveBare(c).pkg in r.providers(r.strip(c)))
    && (forall cs {:trigger r.range(cs)} :: cs != [] && !r.rich(r.strip(cs[0])) ==>
          && ResolvesTruly(r, r.range(cs), r.strip(cs[0]), r.rangeText(cs))
          && (r.strip(cs[0]) !in r.overrides ==> ResolvesWithin(r, r.range(cs), cs)))
    && (forall names, p, n :: p in r.common(names) && n in names ==> p in r.providers(n))
    && (forall l, n, p :: p in r.without(l, n) ==> p in r.providers(l) && p !in r.providers(n))
    && (forall k :: k in r.overrides && !r.rich(k) ==> r.overrides[k] in r.providers(k))
  }

  ghost predicate ResolvesTruly(r: Rules, res: Resolution, name: string, text: string) {
    match res
    case Chosen(pkg) => pkg in r.providers(name)
    case Ambiguous(candidates) => text !in r.overrides && forall p :: p in candidates ==> p in r.providers(name)
    case _ => true
  }

  ghost predicate ResolvesWithin(r: Rules, res: Resolution, cs: seq<string>) {
    match res
    case Chosen(pkg) => r.fits(cs, pkg)
    case Ambiguous(candidates) => forall p :: p in candidates ==> r.fits(cs, p)
    case _ => true
  }

  // ── What is true of a set of packages ────────────────────────────────

  /** Some package provides the name. */
  predicate Provided(r: Rules, name: string, s: set<string>) {
    exists p :: p in s && p in r.providers(name)
  }

  /** One package provides all an expression asks of one package. */
  predicate OneProvides(r: Rules, n: Node, p: string) {
    match n
    case Cap(text) => p in r.providers(r.strip(text))
    case Chain(op, children) =>
      if op.Or? then exists i :: 0 <= i < |children| && OneProvides(r, children[i], p)
      else forall i :: 0 <= i < |children| ==> OneProvides(r, children[i], p)
    case Minus(left, right) => OneProvides(r, left, p) && !OneProvides(r, right, p)
    case _ => false
  }

  /**
   * The expression is true of a set of packages, as rpm means it: `with` and
   * `without` speak of one package, and overrides have no say.
   */
  predicate True(r: Rules, n: Node, s: set<string>) {
    match n
    case Cap(text) => Provided(r, r.strip(text), s)
    case Chain(op, children) =>
      if op.Or? then exists i :: 0 <= i < |children| && True(r, children[i], s)
      else if op.And? then forall i :: 0 <= i < |children| ==> True(r, children[i], s)
      else exists p :: p in s && OneProvides(r, n, p)
    case Minus(_, _) => exists p :: p in s && OneProvides(r, n, p)
    case Conditional(op, then_, cond, other) =>
      if True(r, cond, s) == op.If? then True(r, then_, s) else other.Some? ==> True(r, other.value, s)
  }

  /**
   * What the solver sees to.  A version range is met within its bounds unless
   * an override answers it.  An `if` without `else` is rpm's; with `else`, the
   * `else` branch holds if the condition is false and one of the two holds in
   * any case.  An `unless` holds if its condition is false.  Of a condition
   * that may become false again nothing is said where it would have to stay.
   */
  ghost predicate Holds(r: Rules, n: Node, s: set<string>) {
    match n
    case Cap(text) => Provided(r, r.strip(text), s)
    case Chain(op, children) =>
      if op.Or? then exists i :: 0 <= i < |children| && Holds(r, children[i], s)
      else if op.With? then exists p :: p in s && OneProvides(r, n, p) && WithinBounds(r, n, p)
      else forall i :: 0 <= i < |children| ==> Holds(r, children[i], s)
    case Conditional(op, then_, cond, other) =>
      if op.If? && other.None? then True(r, cond, s) ==> Holds(r, then_, s)
      else if op.If? then
        && (Holds(r, then_, s) || Holds(r, other.value, s))
        && (Positive(cond) && !True(r, cond, s) ==> Holds(r, other.value, s))
      else
        && (Positive(cond) && !True(r, cond, s) ==> Holds(r, then_, s))
        && (other.Some? ==> Holds(r, then_, s) || Holds(r, other.value, s))
    case Minus(_, _) => exists p :: p in s && OneProvides(r, n, p)
  }

  /** The package meets the bounds of a version range, unless an override answers for the capability. */
  ghost predicate WithinBounds(r: Rules, n: Node, p: string) {
    IsRange(r, n) && r.strip(LeafCaps(n).value[0]) !in r.overrides ==> r.fits(LeafCaps(n).value, p)
  }

  // ── Conditions the solver reads as they are meant ────────────────────

  /** No provider of the name is overlooked: an override is asked about instead of the providers. */
  ghost predicate NameRead(r: Rules, name: string) {
    name in r.overrides ==> forall p :: p in r.providers(name) ==> p == r.overrides[name]
  }

  /** What counts as the name's presence provides it: an override's answer, if there is an override. */
  ghost predicate NameMeant(r: Rules, name: string) {
    name in r.overrides ==> r.overrides[name] in r.providers(name)
  }

  /** A capability whose name holds no further constraint and is no expression. */
  predicate IsName(r: Rules, n: Node) {
    n.Cap? && r.strip(r.strip(n.text)) == r.strip(n.text) && !r.rich(r.strip(n.text))
  }

  /** A `with` over capabilities. */
  predicate WithOfNames(r: Rules, n: Node) {
    match n
    case Cap(_) => IsName(r, n)
    case Chain(op, children) => op.With? && forall i :: 0 <= i < |children| ==> WithOfNames(r, children[i])
    case _ => false
  }

  ghost predicate NamesRead(r: Rules, n: Node) {
    match n
    case Cap(text) => NameRead(r, r.strip(text))
    case Chain(_, children) => forall i :: 0 <= i < |children| ==> NamesRead(r, children[i])
    case _ => false
  }

  /** Every provider of one name provides the other. */
  ghost predicate Covers(r: Rules, name: string, other: string) {
    forall p :: p in r.providers(name) ==> p in r.providers(other)
  }

  /**
   * The condition is read as it is meant, in one direction: with `up`, it is
   * found true whenever it is true; without, it is true whenever found true.
   */
  ghost predicate Reads(r: Rules, n: Node, up: bool) {
    match n
    case Cap(text) => if up then NameRead(r, r.strip(text)) else NameMeant(r, r.strip(text))
    case Chain(op, children) =>
      if op.And? || op.Or? then forall i :: 0 <= i < |children| ==> Reads(r, children[i], up)
      else if up then op.With? && Positive(n) && NamesRead(r, n)
      else WithOfNames(r, n) && LeafNames(r, n).Some? && LeafNames(r, n).value != [] && AllSame(LeafNames(r, n).value)
    case Minus(left, right) =>
      && left.Cap? && right.Cap?
      && (if up then
            || (Covers(r, r.strip(left.text), r.strip(right.text)))
            || (NameRead(r, r.strip(left.text))
                && r.providers(r.strip(right.text)) == [] && r.strip(right.text) !in r.overrides)
          else NameMeant(r, r.strip(left.text)) && NameRead(r, r.strip(right.text)))
    case Conditional(op, then_, cond, other) =>
      && (op.If? || op.Unless?) && Reads(r, cond, true) && Reads(r, cond, false)
      && Reads(r, then_, up) && (other.Some? ==> Reads(r, other.value, up))
  }

  /** `and` and `or` of capabilities. */
  predicate Plain(r: Rules, n: Node) {
    match n
    case Cap(_) => IsName(r, n)
    case Chain(op, children) => (op.And? || op.Or?) && forall i :: 0 <= i < |children| ==> Plain(r, children[i])
    case _ => false
  }

  /** What an expression comes to, if that is one thing whatever is in the closure. */
  function Comes(r: Rules, n: Node): Outcome
    requires IsFixed(n) || (n.Chain? && n.op.Or?)
  {
    if IsFixed(n) then FixedOutcome(r, n) else OrOutcome(r, n)
  }

  /** The package settles it: taken, present as an alternative, or an override's answer. */
  predicate Settles(r: Rules, o: Outcome, p: string) {
    match o
    case Take(pkg) => p == pkg
    case Ask(e, alternatives) => AnyPresent(r, alternatives, {p}) || (e in r.overrides && r.overrides[e] == p)
    case Report(_) => false
  }

  /** Whatever package can settle the expression makes it hold by itself. */
  ghost predicate OneSettles(r: Rules, n: Node)
    requires IsFixed(n) || (n.Chain? && n.op.Or?)
  {
    forall p :: Settles(r, Comes(r, n), p) ==> Holds(r, n, {p})
  }

  /** An override that answers a `with` or `without` provides what it asks for. */
  ghost predicate OverrideFits(r: Rules, n: Node)
    requires IsFixed(n)
  {
    Overruled(r, n) ==> OneProvides(r, n, r.overrides[r.show(n)])
  }

  /**
   * Capabilities, `with` and `without` over them, overridden at most to what
   * they ask for, `and`, `or` where one package settles it, `if` and `unless`,
   * the conditions being read as they are meant where something depends on it.
   */
  ghost predicate Flat(r: Rules, n: Node) {
    match n
    case Cap(_) => IsName(r, n)
    case Chain(op, children) =>
      if op.And? then forall i :: 0 <= i < |children| ==> Flat(r, children[i])
      else if op.Or? then Plain(r, n) && OneSettles(r, n)
      else WithOfNames(r, n) && OverrideFits(r, n)
    case Minus(left, right) => left.Cap? && right.Cap? && OverrideFits(r, n)
    case Conditional(op, then_, cond, other) =>
      && (op.If? || op.Unless?) && Flat(r, then_) && (other.Some? ==> Flat(r, other.value))
      && (if op.If? && other.None? then Reads(r, cond, true) else Positive(cond) ==> Reads(r, cond, false))
  }

  ghost predicate OutcomeReported(o: Outcome, who: string, problems: seq<Problem>) {
    match o
    case Take(_) => false
    case Report(issue) => Problem(issue, who) in problems
    case Ask(e, _) => ReportedUndecided(problems, e, who)
  }

  /** Something the expression could come to is among the problems, for the one who asked. */
  ghost predicate Reported(r: Rules, n: Node, who: string, problems: seq<Problem>) {
    exists o :: o in May(r, n) && OutcomeReported(o, who, problems)
  }

  // ── Reading conditions ───────────────────────────────────────────────

  lemma {:induction false} OneProvidesIsSeen(r: Rules, n: Node, p: string, s: set<string>)
    requires Positive(n) && NamesRead(r, n) && OneProvides(r, n, p) && p in s
    ensures Satisfied(r, n, s)
  {
    match n
    case Cap(text) =>
      var name := r.strip(text);
      var i :| 0 <= i < |r.providers(name)| && r.providers(name)[i] == p;
    case Chain(op, children) =>
      if op.Or? {
        var i :| 0 <= i < |children| && OneProvides(r, children[i], p);
        OneProvidesIsSeen(r, children[i], p, s);
      } else {
        forall i | 0 <= i < |children| ensures Satisfied(r, children[i], s) {
          OneProvidesIsSeen(r, children[i], p, s);
        }
      }
  }

  lemma {:induction false} SeenLeaf(r: Rules, n: Node, s: set<string>, name: string)
    requires WithOfNames(r, n) && Satisfied(r, n, s) && LeafNames(r, n).Some? && name in LeafNames(r, n).value
    ensures Present(r, name, s)
    decreases n, 0
  {
    if n.Chain? { SeenLeafAll(r, n.children, s, name); }
  }

  lemma {:induction false} LeafIsPlain(r: Rules, n: Node, name: string)
    requires WithOfNames(r, n) && LeafNames(r, n).Some? && name in LeafNames(r, n).value
    ensures !r.rich(name) && r.strip(name) == name
    decreases n, 0
  {
    if n.Chain? { LeafIsPlainAll(r, n.children, name); }
  }

  lemma {:induction false} LeafIsPlainAll(r: Rules, ns: seq<Node>, name: string)
    requires forall i :: 0 <= i < |ns| ==> WithOfNames(r, ns[i])
    requires LeafNamesAll(r, ns).Some? && name in LeafNamesAll(r, ns).value
    ensures !r.rich(name) && r.strip(name) == name
    decreases ns
  {
    if name in LeafNames(r, ns[0]).value {
      LeafIsPlain(r, ns[0], name);
    } else {
      assert forall i :: 0 <= i < |ns[1..]| ==> ns[1..][i] == ns[i + 1];
      LeafIsPlainAll(r, ns[1..], name);
    }
  }

  lemma {:induction false} SeenLeafAll(r: Rules, ns: seq<Node>, s: set<string>, name: string)
    requires forall i :: 0 <= i < |ns| ==> WithOfNames(r, ns[i]) && Satisfied(r, ns[i], s)
    requires LeafNamesAll(r, ns).Some? && name in LeafNamesAll(r, ns).value
    ensures Present(r, name, s)
    decreases ns
  {
    if name in LeafNames(r, ns[0]).value {
      SeenLeaf(r, ns[0], s, name);
    } else {
      assert forall i :: 0 <= i < |ns[1..]| ==> ns[1..][i] == ns[i + 1];
      SeenLeafAll(r, ns[1..], s, name);
    }
  }

  /** A condition that reads truly is found true when it is, or is true when found so. */
  lemma {:induction false} ReadsTruly(r: Rules, n: Node, s: set<string>, up: bool)
    requires Trusty(r) && Reads(r, n, up)
    ensures if up then True(r, n, s) ==> Satisfied(r, n, s) else Satisfied(r, n, s) ==> True(r, n, s)
    decreases n
  {
    match n
    case Cap(text) => CapReads(r, r.strip(text), s, up);
    case Chain(op, children) =>
      if op.And? || op.Or? {
        forall i | 0 <= i < |children|
          ensures if up then True(r, children[i], s) ==> Satisfied(r, children[i], s)
                  else Satisfied(r, children[i], s) ==> True(r, children[i], s)
        {
          ReadsTruly(r, children[i], s, up);
        }
      } else {
        WithReads(r, n, s, up);
      }
    case Minus(left, right) => MinusReads(r, left, right, s, up);
    case Conditional(op, then_, cond, other) =>
      ReadsTruly(r, cond, s, true);
      ReadsTruly(r, cond, s, false);
      ReadsTruly(r, then_, s, up);
      if other.Some? { ReadsTruly(r, other.value, s, up); }
  }

  lemma CapReads(r: Rules, name: string, s: set<string>, up: bool)
    requires if up then NameRead(r, name) else NameMeant(r, name)
    ensures if up then Provided(r, name, s) ==> Present(r, name, s) else Present(r, name, s) ==> Provided(r, name, s)
  {
    if up && Provided(r, name, s) {
      var p :| p in s && p in r.providers(name);
      var i :| 0 <= i < |r.providers(name)| && r.providers(name)[i] == p;
    }
  }

  lemma WithReads(r: Rules, n: Node, s: set<string>, up: bool)
    requires Trusty(r) && Reads(r, n, up) && n.Chain? && !n.op.And? && !n.op.Or?
    ensures if up then True(r, n, s) ==> Satisfied(r, n, s) else Satisfied(r, n, s) ==> True(r, n, s)
  {
    if up && True(r, n, s) {
      var p :| p in s && OneProvides(r, n, p);
      OneProvidesIsSeen(r, n, p, s);
    } else if !up && Satisfied(r, n, s) {
      var names := LeafNames(r, n).value;
      SeenLeaf(r, n, s, names[0]);
      LeafIsPlain(r, n, names[0]);
      PresentIsProvided(r, names[0], s);
      var p :| p in s && p in r.providers(names[0]);
      assert forall name :: name in names ==> name == names[0];
      NamesCover(r, n, p);
    }
  }

  lemma MinusReads(r: Rules, left: Node, right: Node, s: set<string>, up: bool)
    requires Trusty(r) && Reads(r, Minus(left, right), up)
    ensures var n := Minus(left, right);
      if up then True(r, n, s) ==> Satisfied(r, n, s) else Satisfied(r, n, s) ==> True(r, n, s)
  {
    var b, c := r.strip(left.text), r.strip(right.text);
    assert forall p :: (OneProvides(r, left, p) <==> p in r.providers(b)) && (OneProvides(r, right, p) <==> p in r.providers(c));
    assert (Satisfied(r, left, s) <==> Present(r, b, s)) && (Satisfied(r, right, s) <==> Present(r, c, s));
    if up && True(r, Minus(left, right), s) {
      var p :| p in s && OneProvides(r, Minus(left, right), p);
      assert p in r.providers(b) && p !in r.providers(c);
      CapReads(r, b, s, true);
    } else if !up && Satisfied(r, Minus(left, right), s) {
      CapReads(r, b, s, false);
      var p :| p in s && p in r.providers(b);
      CapReads(r, c, s, true);
      assert OneProvides(r, Minus(left, right), p);
    }
  }

  /** A name is never overlooked exactly when no provider but the override's answer exists, if there is an override. */
  lemma NameReadIff(r: Rules, name: string)
    requires Trusty(r)
    ensures NameRead(r, name) <==> forall s: set<string> :: Provided(r, name, s) ==> Present(r, name, s)
  {
    if NameRead(r, name) {
      forall s: set<string> ensures Provided(r, name, s) ==> Present(r, name, s) { CapReads(r, name, s, true); }
    } else {
      var p :| p in r.providers(name) && p != r.overrides[name];
      assert Provided(r, name, {p}) && !Present(r, name, {p});
    }
  }

  /** A name found present is always provided exactly when an override of it answers with a provider. */
  lemma NameMeantIff(r: Rules, name: string)
    ensures NameMeant(r, name) <==> forall s: set<string> :: Present(r, name, s) ==> Provided(r, name, s)
  {
    if NameMeant(r, name) {
      forall s: set<string> ensures Present(r, name, s) ==> Provided(r, name, s) { CapReads(r, name, s, false); }
    } else {
      assert Present(r, name, {r.overrides[name]}) && !Provided(r, name, {r.overrides[name]});
    }
  }

  /** The condition is found true of every set of packages it is true of. */
  ghost predicate NeverOverlooked(r: Rules, n: Node) {
    forall s: set<string> {:trigger Satisfied(r, n, s)} {:trigger True(r, n, s)} :: True(r, n, s) ==> Satisfied(r, n, s)
  }

  /** `(b without c)` is never overlooked exactly when it is never true, or nothing provides `c` and `b` is never overlooked. */
  lemma WithoutReadIff(r: Rules, left: Node, right: Node)
    requires Trusty(r) && left.Cap? && right.Cap?
    ensures Reads(r, Minus(left, right), true) <==> NeverOverlooked(r, Minus(left, right))
  {
    var n, b, c := Minus(left, right), r.strip(left.text), r.strip(right.text);
    if Reads(r, n, true) {
      forall s: set<string> ensures True(r, n, s) ==> Satisfied(r, n, s) { ReadsTruly(r, n, s, true); }
    } else if r.providers(c) == [] && c !in r.overrides {
      var q :| q in r.providers(b) && q != r.overrides[b];
      WithoutSeen(r, left, right, q, {q});
    } else {
      var p :| p in r.providers(b) && p !in r.providers(c);
      var q := if c in r.overrides then r.overrides[c] else r.providers(c)[0];
      WithoutSeen(r, left, right, p, {p, q});
      assert r.providers(c) != [] ==> r.providers(c)[0] in r.providers(c);
    }
  }

  lemma WithoutSeen(r: Rules, left: Node, right: Node, p: string, s: set<string>)
    requires left.Cap? && right.Cap? && p in s
    requires p in r.providers(r.strip(left.text)) && p !in r.providers(r.strip(right.text))
    ensures True(r, Minus(left, right), s)
    ensures Satisfied(r, Minus(left, right), s)
      <==> Present(r, r.strip(left.text), s) && !Present(r, r.strip(right.text), s)
  {
    assert OneProvides(r, left, p) && !OneProvides(r, right, p);
    assert OneProvides(r, Minus(left, right), p);
  }

  /** Every condition of `and`, `or` and `with` over these names. */
  ghost predicate NoneOverlooked(r: Rules, names: set<string>) {
    forall n :: Positive(n) && Over(r, n, names) ==> NeverOverlooked(r, n)
  }

  /** For such conditions: none is ever overlooked exactly when no name is. */
  lemma PositiveReadIff(r: Rules, names: set<string>)
    requires Trusty(r) && forall name :: name in names ==> r.strip(name) == name
    ensures (forall name :: name in names ==> NameRead(r, name)) <==> NoneOverlooked(r, names)
  {
    if forall name :: name in names ==> NameRead(r, name) {
      forall n | Positive(n) && Over(r, n, names) ensures NeverOverlooked(r, n) {
        PositiveReads(r, n, names);
        forall s: set<string> ensures True(r, n, s) ==> Satisfied(r, n, s) { ReadsTruly(r, n, s, true); }
      }
    } else {
      var name :| name in names && !NameRead(r, name);
      NameReadIff(r, name);
      var s: set<string> :| Provided(r, name, s) && !Present(r, name, s);
      assert True(r, Cap(name), s) && !Satisfied(r, Cap(name), s);
      assert Positive(Cap(name)) && Over(r, Cap(name), names) && !NeverOverlooked(r, Cap(name));
    }
  }

  /** The expression mentions only these names. */
  ghost predicate Over(r: Rules, n: Node, names: set<string>) {
    match n
    case Cap(text) => r.strip(text) in names
    case Chain(_, children) => forall i :: 0 <= i < |children| ==> Over(r, children[i], names)
    case _ => false
  }

  lemma {:induction false} PositiveReads(r: Rules, n: Node, names: set<string>)
    requires Positive(n) && Over(r, n, names) && forall name :: name in names ==> NameRead(r, name)
    ensures NamesRead(r, n) && Reads(r, n, true)
  {
    if n.Chain? {
      forall i | 0 <= i < |n.children| ensures NamesRead(r, n.children[i]) && Reads(r, n.children[i], true) {
        PositiveReads(r, n.children[i], names);
      }
    }
  }

  // ── Leaves ───────────────────────────────────────────────────────────

  lemma {:induction false} NamesCover(r: Rules, n: Node, p: string)
    requires WithOfNames(r, n) && LeafNames(r, n).Some?
    requires forall name :: name in LeafNames(r, n).value ==> p in r.providers(name)
    ensures OneProvides(r, n, p)
    decreases n, 0
  {
    if n.Chain? { NamesCoverAll(r, n.children, p); }
  }

  lemma {:induction false} NamesCoverAll(r: Rules, ns: seq<Node>, p: string)
    requires forall i :: 0 <= i < |ns| ==> WithOfNames(r, ns[i])
    requires LeafNamesAll(r, ns).Some?
    requires forall name :: name in LeafNamesAll(r, ns).value ==> p in r.providers(name)
    ensures forall i :: 0 <= i < |ns| ==> OneProvides(r, ns[i], p)
    decreases ns
  {
    if ns != [] {
      var rest := ns[1..];
      assert forall i :: 0 <= i < |rest| ==> rest[i] == ns[i + 1];
      assert forall name :: name in LeafNames(r, ns[0]).value ==> name in LeafNamesAll(r, ns).value;
      assert forall name :: name in LeafNamesAll(r, rest).value ==> name in LeafNamesAll(r, ns).value;
      NamesCover(r, ns[0], p);
      NamesCoverAll(r, rest, p);
      assert forall i :: 0 < i < |ns| ==> ns[i] == rest[i - 1];
    }
  }

  /** The names of a `with` are the names of its bounds, one for one. */
  lemma {:induction false} CapsAreNames(r: Rules, n: Node)
    requires LeafCaps(n).Some?
    ensures LeafNames(r, n).Some? && |LeafNames(r, n).value| == |LeafCaps(n).value|
    ensures forall i :: 0 <= i < |LeafCaps(n).value| ==> LeafNames(r, n).value[i] == r.strip(LeafCaps(n).value[i])
    decreases n, 0
  {
    if n.Chain? { CapsAreNamesAll(r, n.children); }
  }

  lemma {:induction false} CapsAreNamesAll(r: Rules, ns: seq<Node>)
    requires LeafCapsAll(ns).Some?
    ensures LeafNamesAll(r, ns).Some? && |LeafNamesAll(r, ns).value| == |LeafCapsAll(ns).value|
    ensures forall i :: 0 <= i < |LeafCapsAll(ns).value| ==> LeafNamesAll(r, ns).value[i] == r.strip(LeafCapsAll(ns).value[i])
    decreases ns
  {
    if ns != [] {
      CapsAreNames(r, ns[0]);
      CapsAreNamesAll(r, ns[1..]);
    }
  }

  /** The alternatives of a flat `or` are the names of its branches. */
  lemma {:induction false} FlatNames(r: Rules, ns: seq<Node>)
    requires forall i :: 0 <= i < |ns| ==> ns[i].Cap?
    ensures LeafNamesAll(r, ns).Some? && |LeafNamesAll(r, ns).value| == |ns|
    ensures forall i :: 0 <= i < |ns| ==> LeafNamesAll(r, ns).value[i] == r.strip(ns[i].text)
  {
    if ns != [] {
      FlatNames(r, ns[1..]);
      assert LeafNames(r, ns[0]) == Some([r.strip(ns[0].text)]);
    }
  }

  lemma {:induction false} LiveIsResolved(r: Rules, names: seq<string>, pkg: string)
    requires Live(r, names).Some? && pkg in Live(r, names).value
    ensures exists i :: 0 <= i < |names| && r.resolveBare(names[i]) == Chosen(pkg)
  {
    if r.resolveBare(names[0]) != Chosen(pkg) {
      LiveIsResolved(r, names[1..], pkg);
      var i :| 0 <= i < |names[1..]| && r.resolveBare(names[1..][i]) == Chosen(pkg);
      assert names[i + 1] == names[1..][i];
    }
  }

  lemma {:induction false} MayOfConjunct(r: Rules, ns: seq<Node>, i: nat)
    requires i < |ns|
    ensures May(r, ns[i]) <= MayAll(r, ns)
    decreases ns
  {
    if i > 0 {
      MayOfConjunct(r, ns[1..], i - 1);
      assert ns[i] == ns[1..][i - 1];
    }
  }

  // ── What is present, is provided ─────────────────────────────────────

  lemma PresentIsProvided(r: Rules, cap: string, s: set<string>)
    requires Honest(r) && !r.rich(cap) && Present(r, cap, s)
    ensures Provided(r, cap, s)
  {
  }

  /** A candidate that is present is itself there, since nothing else provides its name. */
  lemma CandidateIsThere(r: Rules, name: string, candidates: seq<string>, s: set<string>)
    requires Trusty(r) && forall p :: p in candidates ==> p in r.providers(name)
    requires exists i :: 0 <= i < |candidates| && Present(r, candidates[i], s)
    ensures exists p :: p in candidates && p in s
  {
    var i :| 0 <= i < |candidates| && Present(r, candidates[i], s);
    assert candidates[i] in candidates;
    PresentIsProvided(r, candidates[i], s);
  }

  // ── Answered is held or reported ─────────────────────────────────────

  lemma {:induction false} PlainIsPositive(r: Rules, n: Node)
    requires Plain(r, n)
    ensures Positive(n)
  {
    if n.Chain? {
      forall i | 0 <= i < |n.children| ensures Positive(n.children[i]) { PlainIsPositive(r, n.children[i]); }
    }
  }

  lemma {:induction false} PlainHolds(r: Rules, n: Node, s: set<string>, t: set<string>)
    requires Honest(r) && Plain(r, n) && s <= t && (Satisfied(r, n, s) || Holds(r, n, s))
    ensures Holds(r, n, t)
  {
    match n
    case Cap(text) => if Satisfied(r, n, s) { PresentIsProvided(r, r.strip(text), s); }
    case Chain(op, children) =>
      if op.Or? {
        var i :| 0 <= i < |children| && (Satisfied(r, children[i], s) || Holds(r, children[i], s));
        PlainHolds(r, children[i], s, t);
      } else {
        forall i | 0 <= i < |children| ensures Holds(r, children[i], t) { PlainHolds(r, children[i], s, t); }
      }
  }

  /** What is present is so by one package. */
  lemma PresentByOne(r: Rules, alternatives: seq<string>, s: set<string>) returns (p: string)
    requires AnyPresent(r, alternatives, s)
    ensures p in s && AnyPresent(r, alternatives, {p})
  {
    var i :| 0 <= i < |alternatives| && Present(r, alternatives[i], s);
    var name := alternatives[i];
    if name in r.overrides {
      p := r.overrides[name];
    } else {
      var j :| 0 <= j < |r.providers(name)| && r.providers(name)[j] in s;
      p := r.providers(name)[j];
    }
    assert Present(r, name, {p});
  }

  /** An outcome that was answered and not reported was settled by a package that is there. */
  lemma SettledByOne(r: Rules, o: Outcome, who: string, s: set<string>, problems: seq<Problem>) returns (p: string)
    requires OutcomeAnswered(r, o, who, s, problems) && !OutcomeReported(o, who, problems)
    ensures p in s && Settles(r, o, p)
  {
    match o
    case Take(pkg) => p := pkg;
    case Ask(e, alternatives) =>
      if e in r.overrides && r.overrides[e] in s {
        p := r.overrides[e];
      } else {
        p := PresentByOne(r, alternatives, s);
      }
  }

  /** Settled by one package, the expression is held or reported. */
  lemma SettledIsKept(r: Rules, n: Node, who: string, s: set<string>, problems: seq<Problem>)
    requires IsFixed(n) || (n.Chain? && n.op.Or? && Plain(r, n) && Honest(r))
    requires OneSettles(r, n) && Answered(r, n, who, s, problems)
    ensures Holds(r, n, s) || Reported(r, n, who, problems)
  {
    var o := Comes(r, n);
    assert o in May(r, n);
    if !IsFixed(n) { PlainIsPositive(r, n); }
    if !IsFixed(n) && Satisfied(r, n, s) {
      PlainHolds(r, n, s, s);
    } else if !OutcomeReported(o, who, problems) {
      var p := SettledByOne(r, o, who, s, problems);
      HoldsThrough(r, n, p, s);
    }
  }

  /** What holds by one package of the closure holds of the closure. */
  lemma HoldsThrough(r: Rules, n: Node, p: string, s: set<string>)
    requires (IsFixed(n) && !Comes(r, n).Report?) || (n.Chain? && n.op.Or? && Plain(r, n) && Honest(r))
    requires p in s && Holds(r, n, {p})
    ensures Holds(r, n, s)
  {
    if !IsFixed(n) { PlainHolds(r, n, {p}, s); }
  }

  // ── What settles each shape ──────────────────────────────────────────

  /** A capability is settled by providers, if every candidate's name is provided only by itself. */
  lemma NameSettles(r: Rules, n: Node)
    requires Trusty(r) && IsName(r, n)
    ensures OneSettles(r, n)
  {
    var name := r.strip(n.text);
    assert ResolvesTruly(r, r.resolve(name), name, name);
    forall p | Settles(r, Comes(r, n), p) ensures Holds(r, n, {p}) {
      if r.resolve(name).Ambiguous? {
        CandidateIsThere(r, name, r.resolve(name).candidates, {p});
      }
    }
  }

  /** A choice between capabilities is settled by whatever can settle it, an override of the choice apart. */
  lemma NamesSettle(r: Rules, n: Node)
    requires Honest(r) && n.Chain? && n.op.Or? && forall i :: 0 <= i < |n.children| ==> IsName(r, n.children[i])
    requires r.show(n) in r.overrides ==> Holds(r, n, {r.overrides[r.show(n)]})
    ensures Plain(r, n) && OneSettles(r, n)
  {
    FlatNames(r, n.children);
    var names, o := LeafNames(r, n).value, OrOutcome(r, n);
    forall p | Settles(r, o, p) ensures Holds(r, n, {p}) {
      if o.Ask? {
        var i :| 0 <= i < |names| && Present(r, names[i], {p});
        assert IsName(r, n.children[i]);
        PresentIsProvided(r, names[i], {p});
        assert Holds(r, n.children[i], {p});
      } else if r.show(n) !in r.overrides {
        LiveIsResolved(r, names, p);
        var i :| 0 <= i < |names| && r.resolveBare(names[i]) == Chosen(p);
        assert IsName(r, n.children[i]);
        assert Holds(r, n.children[i], {p});
      }
    }
  }

  /** A `with` is settled by packages that provide all of it, exactly if an override that answers it does. */
  lemma WithSettles(r: Rules, n: Node)
    requires Trusty(r) && WithOfNames(r, n) && n.Chain?
    ensures OneSettles(r, n) <==> OverrideFits(r, n)
  {
    if Overruled(r, n) {
      OverruledSettles(r, n);
    } else if IsRange(r, n) {
      RangeSettles(r, n);
    } else if Comes(r, n).Take? {
      var names := LeafNames(r, n).value;
      assert r.common(names)[0] in r.common(names);
      NamesCover(r, n, Comes(r, n).pkg);
    }
  }

  /** The override is taken, whatever it provides. */
  lemma OverruledSettles(r: Rules, n: Node)
    requires IsFixed(n) && Overruled(r, n)
    ensures OneSettles(r, n) <==> OneProvides(r, n, r.overrides[r.show(n)])
  {
    var pkg := r.overrides[r.show(n)];
    assert Comes(r, n) == Take(pkg) && Settles(r, Comes(r, n), pkg);
    assert Holds(r, n, {pkg}) <==> OneProvides(r, n, pkg);
  }

  lemma RangeSettles(r: Rules, n: Node)
    requires Trusty(r) && WithOfNames(r, n) && IsRange(r, n)
    ensures OneSettles(r, n)
  {
    var caps, names := LeafCaps(n).value, LeafNames(r, n).value;
    var res, name := r.range(caps), r.strip(caps[0]);
    CapsAreNames(r, n);
    LeafIsPlain(r, n, names[0]);
    assert ResolvesTruly(r, res, name, r.rangeText(caps));
    forall p | Settles(r, Comes(r, n), p) ensures Holds(r, n, {p}) {
      if res.Ambiguous? { CandidateIsThere(r, name, res.candidates, {p}); }
      NamesCover(r, n, p);
    }
  }

  /** So is a `without`. */
  lemma WithoutSettles(r: Rules, n: Node)
    requires Honest(r) && n.Minus? && n.left.Cap? && n.right.Cap?
    ensures OneSettles(r, n) <==> OverrideFits(r, n)
  {
    var b, c := r.strip(n.left.text), r.strip(n.right.text);
    assert LeafNames(r, n.left) == Some([b]) && LeafNames(r, n.right) == Some([c]);
    assert |r.without(b, c)| == 1 ==> r.without(b, c)[0] in r.without(b, c);
    assert forall p :: OneProvides(r, n, p) <==> p in r.providers(b) && p !in r.providers(c);
    if Overruled(r, n) { OverruledSettles(r, n); }
  }

  lemma {:induction false} AnsweredHolds(r: Rules, n: Node, who: string, s: set<string>, problems: seq<Problem>)
    requires Trusty(r) && Flat(r, n) && Answered(r, n, who, s, problems)
    ensures Holds(r, n, s) || Reported(r, n, who, problems)
    decreases n
  {
    if IsFixed(n) || (n.Chain? && n.op.Or?) {
      FlatSettles(r, n);
      SettledIsKept(r, n, who, s, problems);
    } else {
      match n
      case Chain(op, children) =>
        if i :| 0 <= i < |children| && !Holds(r, children[i], s) {
          AnsweredHolds(r, children[i], who, s, problems);
          MayOfConjunct(r, children, i);
        }
      case Conditional(op, then_, cond, other) =>
        assert May(r, then_) <= May(r, n) && (other.Some? ==> May(r, other.value) <= May(r, n));
        if Answered(r, then_, who, s, problems) { AnsweredHolds(r, then_, who, s, problems); }
        if other.Some? && Answered(r, other.value, who, s, problems) { AnsweredHolds(r, other.value, who, s, problems); }
        if op.If? && other.None? {
          ReadsTruly(r, cond, s, true);
        } else if Positive(cond) {
          ReadsTruly(r, cond, s, false);
        }
    }
  }

  lemma FlatSettles(r: Rules, n: Node)
    requires Trusty(r) && Flat(r, n) && (IsFixed(n) || (n.Chain? && n.op.Or?))
    ensures OneSettles(r, n) && (n.Chain? && n.op.Or? ==> Plain(r, n))
  {
    if n.Cap? {
      NameSettles(r, n);
    } else if n.Minus? {
      WithoutSettles(r, n);
    } else if !n.op.Or? {
      WithSettles(r, n);
    }
  }
}
