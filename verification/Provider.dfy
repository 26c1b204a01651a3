/** Mapping one capability to the package that provides it. */
module Provider {
  import opened Options
  import opened TextOrder
  import opened RpmVersion
  import opened Requirement

  /** What the repositories offer, and the answers a human has already given. */
  datatype Index = Index(
    provided: map<string, seq<string>>,
    provideEvr: map<string, map<string, seq<Evr>>>,
    overrides: map<string, string>)

  function Providers(ix: Index, name: string): seq<string> {
    if name in ix.provided then ix.provided[name] else []
  }

  /** The versions at which a package states it provides `name`; none stated is the empty list. */
  function Versions(ix: Index, name: string, pkg: string): seq<Evr> {
    if name in ix.provideEvr && pkg in ix.provideEvr[name] then ix.provideEvr[name][pkg] else []
  }

  /** The packages of a list that satisfy a constraint on `name`. */
  function Satisfying(ix: Index, name: string, op: Option<Op>, wanted: string, pkgs: seq<string>): (r: seq<string>)
    ensures forall p :: p in r <==> p in pkgs && AnyVersionSatisfies(Versions(ix, name, p), op, wanted)
  {
    if pkgs == [] then []
    else
      var rest := Satisfying(ix, name, op, wanted, pkgs[1..]);
      assert pkgs == [pkgs[0]] + pkgs[1..];
      if AnyVersionSatisfies(Versions(ix, name, pkgs[0]), op, wanted) then [pkgs[0]] + rest else rest
  }

  /** `sorted(matching)` */
  function Matching(ix: Index, s: Split): seq<string> {
    Sorted(Satisfying(ix, s.name, s.op, s.wanted, Providers(ix, s.name)))
  }

  // ── Newest wins ──────────────────────────────────────────────────────

  datatype Offer = Offer(pkg: string, evr: Evr)

  /** One package's stated versions, the earlier kept on a tie. */
  function BestOf(pkg: string, evrs: seq<Evr>, op: Option<Op>, wanted: string, best: Option<Offer>): Option<Offer> {
    if evrs == [] then best
    else
      var better := SatisfiesConstraint(Some(evrs[0]), op, wanted)
                    && (best.None? || CompareEvr(evrs[0], best.value.evr) > 0);
      BestOf(pkg, evrs[1..], op, wanted, if better then Some(Offer(pkg, evrs[0])) else best)
  }

  function BestAmong(ix: Index, name: string, op: Option<Op>, wanted: string, pkgs: seq<string>, best: Option<Offer>)
    : Option<Offer>
  {
    if pkgs == [] then best
    else BestAmong(ix, name, op, wanted, pkgs[1..], BestOf(pkgs[0], Versions(ix, name, pkgs[0]), op, wanted, best))
  }

  /** `o` is a satisfying version some listed package states. */
  ghost predicate Offered(ix: Index, name: string, op: Option<Op>, wanted: string, pkgs: seq<string>, o: Offer) {
    o.pkg in pkgs && o.evr in Versions(ix, name, o.pkg) && SatisfiesConstraint(Some(o.evr), op, wanted)
  }

  lemma {:induction false} BestOfIsMaximal(pkg: string, evrs: seq<Evr>, op: Option<Op>, wanted: string,
                                           best: Option<Offer>)
    ensures var r := BestOf(pkg, evrs, op, wanted, best);
      && (best.Some? ==> r.Some? && CompareEvr(best.value.evr, r.value.evr) <= 0)
      && (forall e :: e in evrs && SatisfiesConstraint(Some(e), op, wanted) ==>
            r.Some? && CompareEvr(e, r.value.evr) <= 0)
      && (r.None? || r == best
          || (r.value.pkg == pkg && r.value.evr in evrs && SatisfiesConstraint(Some(r.value.evr), op, wanted)))
  {
    var r := BestOf(pkg, evrs, op, wanted, best);
    if evrs == [] {
      if best.Some? { EvrTotalPreorder(best.value.evr, best.value.evr, best.value.evr); }
    } else {
      var better := SatisfiesConstraint(Some(evrs[0]), op, wanted)
                    && (best.None? || CompareEvr(evrs[0], best.value.evr) > 0);
      var next := if better then Some(Offer(pkg, evrs[0])) else best;
      BestOfIsMaximal(pkg, evrs[1..], op, wanted, next);
      assert evrs == [evrs[0]] + evrs[1..];
      if next.Some? && best.Some? {
        EvrTotalPreorder(best.value.evr, evrs[0], r.value.evr);
        EvrTotalPreorder(evrs[0], best.value.evr, r.value.evr);
      }
    }
  }

  lemma {:induction false} BestAmongIsMaximal(ix: Index, name: string, op: Option<Op>, wanted: string,
                                              pkgs: seq<string>, best: Option<Offer>)
    ensures var r := BestAmong(ix, name, op, wanted, pkgs, best);
      && (best.Some? ==> r.Some? && CompareEvr(best.value.evr, r.value.evr) <= 0)
      && (forall o :: Offered(ix, name, op, wanted, pkgs, o) ==> r.Some? && CompareEvr(o.evr, r.value.evr) <= 0)
      && (r.Some? ==> r == best || Offered(ix, name, op, wanted, pkgs, r.value))
  {
    var r := BestAmong(ix, name, op, wanted, pkgs, best);
    if pkgs == [] {
      if best.Some? { EvrTotalPreorder(best.value.evr, best.value.evr, best.value.evr); }
    } else {
      var evrs := Versions(ix, name, pkgs[0]);
      var next := BestOf(pkgs[0], evrs, op, wanted, best);
      BestOfIsMaximal(pkgs[0], evrs, op, wanted, best);
      BestAmongIsMaximal(ix, name, op, wanted, pkgs[1..], next);
      assert pkgs == [pkgs[0]] + pkgs[1..];
      if best.Some? { EvrTotalPreorder(best.value.evr, next.value.evr, r.value.evr); }
      forall o | Offered(ix, name, op, wanted, pkgs, o) ensures r.Some? && CompareEvr(o.evr, r.value.evr) <= 0 {
        if o.pkg == pkgs[0] {
          EvrTotalPreorder(o.evr, next.value.evr, r.value.evr);
        } else {
          assert Offered(ix, name, op, wanted, pkgs[1..], o);
        }
      }
    }
  }

  /** The newest satisfying version among sorted packages: the two nested loops. */
  method NewestOffer(ix: Index, name: string, op: Option<Op>, wanted: string, pkgs: seq<string>)
    returns (best: Option<Offer>)
    ensures best == BestAmong(ix, name, op, wanted, pkgs, None)
  {
    best := None;
    for i := 0 to |pkgs|
      invariant BestAmong(ix, name, op, wanted, pkgs[i..], best) == BestAmong(ix, name, op, wanted, pkgs, None)
    {
      var pkg := pkgs[i];
      var evrs := Versions(ix, name, pkg);
      assert pkgs[i..][1..] == pkgs[i + 1..];
      ghost var start := best;
      for j := 0 to |evrs|
        invariant BestOf(pkg, evrs[j..], op, wanted, best) == BestOf(pkg, evrs, op, wanted, start)
      {
        assert evrs[j..][1..] == evrs[j + 1..];
        if SatisfiesConstraint(Some(evrs[j]), op, wanted) {
          if best.None? || CompareEvr(evrs[j], best.value.evr) > 0 {
            best := Some(Offer(pkg, evrs[j]));
          }
        }
      }
    }
  }

  // ── One capability ───────────────────────────────────────────────────

  datatype Resolution =
    | Chosen(pkg: string)
    | NoProvider
    | WrongVersion
    | Ambiguous(candidates: seq<string>)

  function Resolve(ix: Index, capability: string): Resolution {
    var s := SplitConstraint(capability);
    if capability in ix.overrides then Chosen(ix.overrides[capability])
    else if s.name in ix.overrides then Chosen(ix.overrides[s.name])
    else if Providers(ix, s.name) == [] then NoProvider
    else
      var matching := Matching(ix, s);
      if matching == [] then WrongVersion
      else if |matching| == 1 then Chosen(matching[0])
      else if s.name in matching then Chosen(s.name)
      else
        var best := if s.op.None? then None else BestAmong(ix, s.name, s.op, s.wanted, matching, None);
        if best.Some? then Chosen(best.value.pkg) else Ambiguous(matching)
  }

  method ResolveCapability(ix: Index, capability: string) returns (r: Resolution)
    ensures r == Resolve(ix, capability)
    ensures capability in ix.overrides ==> r == Chosen(ix.overrides[capability])
    ensures capability !in ix.overrides && StripVersion(capability) in ix.overrides ==>
              r == Chosen(ix.overrides[StripVersion(capability)])
  {
    if capability in ix.overrides { return Chosen(ix.overrides[capability]); }
    var s := SplitConstraint(capability);
    if s.name in ix.overrides { return Chosen(ix.overrides[s.name]); }
    if Providers(ix, s.name) == [] { return NoProvider; }
    var matching := Matching(ix, s);
    if matching == [] { return WrongVersion; }
    if |matching| == 1 { return Chosen(matching[0]); }
    if s.name in matching { return Chosen(s.name); }
    if s.op.Some? {
      var best := NewestOffer(ix, s.name, s.op, s.wanted, matching);
      if best.Some? { return Chosen(best.value.pkg); }
    }
    return Ambiguous(matching);
  }

  ghost predicate Overridden(ix: Index, capability: string) {
    capability in ix.overrides || StripVersion(capability) in ix.overrides
  }

  /** `p` provides the capability at a version the constraint accepts. */
  ghost predicate Meets(ix: Index, capability: string, p: string) {
    var s := SplitConstraint(capability);
    p in Providers(ix, s.name) && AnyVersionSatisfies(Versions(ix, s.name, p), s.op, s.wanted)
  }

  /** `p` states a version of the capability that the constraint accepts. */
  ghost predicate States(ix: Index, capability: string, p: string, e: Evr) {
    var s := SplitConstraint(capability);
    p in Providers(ix, s.name) && e in Versions(ix, s.name, p) && SatisfiesConstraint(Some(e), s.op, s.wanted)
  }

  lemma MatchingIsMeets(ix: Index, capability: string)
    ensures forall p :: p in Matching(ix, SplitConstraint(capability)) <==> Meets(ix, capability, p)
    ensures Ascending(Matching(ix, SplitConstraint(capability)))
  {
    var s := SplitConstraint(capability);
    SortedAscending(Satisfying(ix, s.name, s.op, s.wanted, Providers(ix, s.name)));
  }

  /** A capability that is a key is answered by its override, else one whose name is a key by that name's, whoever provides it. */
  lemma OverrideAnswers(ix: Index, capability: string, answer: string)
    requires if capability in ix.overrides then ix.overrides[capability] == answer
             else StripVersion(capability) in ix.overrides && ix.overrides[StripVersion(capability)] == answer
    ensures Resolve(ix, capability) == Chosen(answer)
  {
  }

  /** A package called what is asked for is chosen, if it meets the constraint. */
  lemma ExactNameWins(ix: Index, capability: string)
    requires !Overridden(ix, capability) && Meets(ix, capability, StripVersion(capability))
    ensures Resolve(ix, capability) == Chosen(StripVersion(capability))
  {
    MatchingIsMeets(ix, capability);
    var m := Matching(ix, SplitConstraint(capability));
    assert StripVersion(capability) in m;
    assert |m| == 1 ==> m == [m[0]];
  }

  /** So is the only package that meets it. */
  lemma OnlyOneIsChosen(ix: Index, capability: string, p: string)
    requires !Overridden(ix, capability) && Meets(ix, capability, p)
    requires forall q :: Meets(ix, capability, q) ==> q == p
    ensures Resolve(ix, capability) == Chosen(p)
  {
    RefusedExactlyWhen(ix, capability);
    if Resolve(ix, capability).Chosen? { ChosenMeets(ix, capability); }
  }

  /** Without an override, a chosen provider provides the capability and meets its constraint. */
  lemma ChosenMeets(ix: Index, capability: string)
    requires !Overridden(ix, capability) && Resolve(ix, capability).Chosen?
    ensures Meets(ix, capability, Resolve(ix, capability).pkg)
  {
    MatchingIsMeets(ix, capability);
    var s := SplitConstraint(capability);
    var m := Matching(ix, s);
    BestAmongIsMaximal(ix, s.name, s.op, s.wanted, m, None);
    assert |m| == 1 ==> m[0] in m;
  }

  /** When newest-wins decides, nothing that matches states a satisfying version newer than the chosen one's. */
  lemma NewestWins(ix: Index, capability: string)
    requires !Overridden(ix, capability) && Resolve(ix, capability).Chosen?
    ensures var s, c := SplitConstraint(capability), Resolve(ix, capability).pkg;
      || (forall p :: Meets(ix, capability, p) ==> p == c)
      || c == s.name
      || (exists e :: States(ix, capability, c, e)
                      && forall p, e' :: States(ix, capability, p, e') ==> CompareEvr(e', e) <= 0)
  {
    MatchingIsMeets(ix, capability);
    var s := SplitConstraint(capability);
    var m := Matching(ix, s);
    if |m| > 1 && s.name !in m {
      BestAmongIsMaximal(ix, s.name, s.op, s.wanted, m, None);
      var best := BestAmong(ix, s.name, s.op, s.wanted, m, None).value;
      assert States(ix, capability, best.pkg, best.evr);
      forall p, e' | States(ix, capability, p, e') ensures CompareEvr(e', best.evr) <= 0 {
        StatedMeets(ix, capability, p, e');
        assert Offered(ix, s.name, s.op, s.wanted, m, Offer(p, e'));
      }
    } else if |m| == 1 {
      assert forall p :: p in m ==> p == m[0];
    }
  }

  lemma StatedMeets(ix: Index, capability: string, p: string, e: Evr)
    requires States(ix, capability, p, e)
    ensures Meets(ix, capability, p)
  {
    var s := SplitConstraint(capability);
    var i :| 0 <= i < |Versions(ix, s.name, p)| && Versions(ix, s.name, p)[i] == e;
  }

  /** Exactly when resolution refuses, and which refusal it is. */
  lemma RefusedExactlyWhen(ix: Index, capability: string)
    requires !Overridden(ix, capability)
    ensures var r, s := Resolve(ix, capability), SplitConstraint(capability);
      && (r.NoProvider? <==> Providers(ix, s.name) == [])
      && (r.WrongVersion? <==> Providers(ix, s.name) != [] && forall p :: !Meets(ix, capability, p))
      && (r.Ambiguous? <==>
            && (exists p, q :: p != q && Meets(ix, capability, p) && Meets(ix, capability, q))
            && !Meets(ix, capability, s.name)
            && (s.op.None? || forall p, e :: !States(ix, capability, p, e)))
      && (r.Ambiguous? ==> forall p :: p in r.candidates <==> Meets(ix, capability, p))
  {
    MatchingIsMeets(ix, capability);
    var s := SplitConstraint(capability);
    var m := Matching(ix, s);
    assert m != [] ==> m[0] in m;
    if |m| > 1 {
      assert Less(m[0], m[1]) && m[1] in m;
      LessIrreflexive(m[0]);
    }
    assert |m| == 1 ==> forall p :: p in m ==> p == m[0];
    BestAmongIsMaximal(ix, s.name, s.op, s.wanted, m, None);
    forall p, e | States(ix, capability, p, e) ensures Offered(ix, s.name, s.op, s.wanted, m, Offer(p, e)) {
      StatedMeets(ix, capability, p, e);
    }
    if m != [] && s.op.Some? && BestAmong(ix, s.name, s.op, s.wanted, m, None).Some? {
      var best := BestAmong(ix, s.name, s.op, s.wanted, m, None).value;
      assert States(ix, capability, best.pkg, best.evr);
    }
  }
}
