/** From package records to a closure: the universe is built, then closed over. */
module Solve {
  import opened Options
  import opened Requirement
  import opened Provider
  import opened BooleanDeps
  import opened ClosureRules
  import opened ClosureFixpoint
  import opened ClosureRun
  import opened RpmClosure
  import opened Packages
  import opened Collapse
  import Indexing = Universe

  // ── Whatever is taken is provided, or an override's answer ───────────

  ghost predicate Known(ix: Index, pkg: string) {
    (exists k :: pkg in Providers(ix, k)) || pkg in ix.overrides.Values
  }

  ghost predicate TakesKnown(ix: Index, os: set<Outcome>) {
    forall o :: o in os && o.Take? ==> Known(ix, o.pkg)
  }

  lemma ResolvedIsKnown(ix: Index, c: string)
    requires Resolve(ix, c).Chosen?
    ensures Known(ix, Resolve(ix, c).pkg)
  {
    if !Overridden(ix, c) { ChosenMeets(ix, c); }
  }

  lemma BareIsKnown(ix: Index, c: string)
    requires Resolve(ix.(provideEvr := map[]), c).Chosen?
    ensures Known(ix, Resolve(ix.(provideEvr := map[]), c).pkg)
  {
    var bare := ix.(provideEvr := map[]);
    ResolvedIsKnown(bare, c);
    if k :| Resolve(bare, c).pkg in Providers(bare, k) { assert Resolve(bare, c).pkg in Providers(ix, k); }
  }

  lemma RangeIsKnown(ix: Index, cs: seq<string>)
    requires ResolveRange(ix, cs).Chosen?
    ensures Known(ix, ResolveRange(ix, cs).pkg)
  {
    if StripVersion(cs[0]) !in ix.overrides { RangeAnswer(ix, cs); }
  }

  lemma {:induction false} LiveIsKnown(ix: Index, needs: map<string, seq<string>>, names: seq<string>, pkg: string)
    requires Live(RpmRules(ix, needs), names).Some? && pkg in Live(RpmRules(ix, needs), names).value
    ensures Known(ix, pkg)
  {
    var r := RpmRules(ix, needs);
    if r.resolveBare(names[0]) == Chosen(pkg) {
      BareIsKnown(ix, names[0]);
    } else {
      LiveIsKnown(ix, needs, names[1..], pkg);
    }
  }

  lemma IntersectIsKnown(ix: Index, needs: map<string, seq<string>>, n: Node)
    requires var candidates := Intersect(RpmRules(ix, needs), n); candidates.Some? && |candidates.value| == 1
    ensures Known(ix, Intersect(RpmRules(ix, needs), n).value[0])
  {
    var r := RpmRules(ix, needs);
    var candidates := Intersect(r, n).value;
    assert candidates[0] in candidates;
    if n.Chain? {
      var names := LeafNames(r, n).value;
      assert names[0] in names;
      assert candidates[0] in Providers(ix, names[0]);
    } else {
      assert candidates[0] in Providers(ix, LeafNames(r, n.left).value[0]);
    }
  }

  lemma FixedIsKnown(ix: Index, needs: map<string, seq<string>>, n: Node)
    requires IsFixed(n) && FixedOutcome(RpmRules(ix, needs), n).Take?
    ensures Known(ix, FixedOutcome(RpmRules(ix, needs), n).pkg)
  {
    var r := RpmRules(ix, needs);
    if n.Cap? {
      ResolvedIsKnown(ix, StripVersion(n.text));
    } else if IsRange(r, n) {
      RangeIsKnown(ix, LeafCaps(n).value);
    } else if Intersect(r, n).Some? && |Intersect(r, n).value| == 1 {
      IntersectIsKnown(ix, needs, n);
    }
  }

  lemma {:induction false} MayIsKnown(ix: Index, needs: map<string, seq<string>>, n: Node)
    ensures TakesKnown(ix, May(RpmRules(ix, needs), n))
    decreases n
  {
    var r := RpmRules(ix, needs);
    if IsFixed(n) {
      if FixedOutcome(r, n).Take? { FixedIsKnown(ix, needs, n); }
    } else {
      match n
      case Chain(op, children) =>
        if op.And? {
          MayAllIsKnown(ix, needs, children);
        } else if OrOutcome(r, n).Take? && r.show(n) !in r.overrides {
          LiveIsKnown(ix, needs, LeafNames(r, n).value, OrOutcome(r, n).pkg);
        }
      case Conditional(op, then_, cond, other) =>
        MayIsKnown(ix, needs, then_);
        if other.Some? { MayIsKnown(ix, needs, other.value); }
    }
  }

  lemma {:induction false} MayAllIsKnown(ix: Index, needs: map<string, seq<string>>, ns: seq<Node>)
    ensures TakesKnown(ix, MayAll(RpmRules(ix, needs), ns))
    decreases ns
  {
    if ns != [] {
      MayIsKnown(ix, needs, ns[0]);
      MayAllIsKnown(ix, needs, ns[1..]);
    }
  }

  lemma NeedIsKnown(ix: Index, needs: map<string, seq<string>>, cap: string, atRoot: bool)
    ensures TakesKnown(ix, MayNeed(RpmRules(ix, needs), cap, atRoot))
  {
    var r := RpmRules(ix, needs);
    if IsRichDep(StripVersion(cap)) {
      if r.read(r.strip(cap)).Some? { MayIsKnown(ix, needs, r.read(r.strip(cap)).value); }
    } else if PlainOutcome(r, cap, atRoot).Take? {
      ResolvedIsKnown(ix, Asked(r, cap, atRoot));
    }
  }

  /** A closure holds roots, providers and overrides' answers, and nothing else. */
  lemma ClosureIsKnown(ix: Index, needs: map<string, seq<string>>, roots: seq<string>, extra: seq<(string, string)>,
                       pkg: string)
    requires pkg in Universe(RpmRules(ix, needs), roots, extra)
    ensures pkg in roots || Known(ix, pkg)
  {
    var r := RpmRules(ix, needs);
    if pkg !in roots && pkg !in ix.overrides.Values {
      if i, o :| 0 <= i < |extra| && o in MayNeed(r, extra[i].0, true) && o.Take? && o.pkg == pkg {
        NeedIsKnown(ix, needs, extra[i].0, true);
      } else {
        var k, i, o :| k in r.needs && 0 <= i < |r.needs[k]| && o in MayNeed(r, r.needs[k][i], false) && o.Take?
                       && o.pkg == pkg;
        NeedIsKnown(ix, needs, r.needs[k][i], false);
      }
    }
  }

  // ── End to end ───────────────────────────────────────────────────────

  /** Every package of the closure has a build and its requirements, if the roots and the overrides' answers have. */
  method SolvePackages(st: Setting, pkgs: seq<Package>, overrides: map<string, string>, roots: seq<string>,
                       extra: seq<(string, string)>)
    returns (u: Indexing.Universe, seen: set<string>, problems: seq<Problem>)
    ensures Indexing.IsUniverse(st, pkgs, u)
    ensures
      (forall p :: p in roots || p in overrides.Values ==> p in u.binaryIndex && p in u.needs) ==>
        forall p :: p in seen ==> p in u.binaryIndex && u.binaryIndex[p] < |pkgs| && p in u.needs
    ensures Solved(Index(u.provided, u.provideEvr, overrides), u.needs, roots, extra, seen, problems)
  {
    u := Indexing.BuildUniverse(st, pkgs);
    var ix := Index(u.provided, u.provideEvr, overrides);
    seen, problems := SolveRuntime(ix, u.needs, roots, extra);
    if forall p :: p in roots || p in overrides.Values ==> p in u.binaryIndex && p in u.needs {
      forall p | p in seen ensures p in u.binaryIndex && u.binaryIndex[p] < |pkgs| && p in u.needs {
        ClosureIsKnown(ix, u.needs, roots, extra, p);
        KnownIsIndexed(st, pkgs, u, ix, p);
      }
    }
  }

  lemma KnownIsIndexed(st: Setting, pkgs: seq<Package>, u: Indexing.Universe, ix: Index, p: string)
    requires Indexing.IsUniverse(st, pkgs, u) && ix.provided == u.provided
    requires (p in u.binaryIndex && p in u.needs) || exists k :: p in Providers(ix, k)
    ensures p in u.binaryIndex && u.binaryIndex[p] < |pkgs| && p in u.needs
  {
    if k :| p in Providers(ix, k) {
      Indexing.ProvidersAreIndexed(st, pkgs, u, k, p);
    } else {
      assert Lookup(u.binaryIndex, p) == Indexing.Standing(st, pkgs, p);
    }
  }
}
