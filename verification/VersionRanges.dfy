/**
 * A range is met bound by bound, and the newest version stated decides, in
 * range or not.  When that is the same as being met by one version, and as
 * taking the newest version in range.
 */
module VersionRanges {
  import opened Options
  import opened TextOrder
  import opened RpmVersion
  import opened Requirement
  import opened Provider
  import opened Constrained
  import opened RpmClosure

  predicate MeetsBounds(e: Evr, caps: seq<string>) {
    forall c :: c in caps ==> SatisfiesConstraint(Some(e), SplitConstraint(c).op, SplitConstraint(c).wanted)
  }

  /** Bounds on one capability, as a `with` chain over it has them. */
  predicate BoundsOf(name: string, caps: seq<string>) {
    caps != [] && forall c :: c in caps ==> StripVersion(c) == name
  }

  /** One stated version meets every bound, or none is stated. */
  ghost predicate MetByOne(ix: Index, name: string, caps: seq<string>, p: string) {
    Versions(ix, name, p) == [] || exists e :: e in Versions(ix, name, p) && MeetsBounds(e, caps)
  }

  /** Every range the provider is accepted for holds a version it states. */
  ghost predicate AcceptedTruly(ix: Index, name: string, p: string) {
    forall caps :: BoundsOf(name, caps) && MeetsEach(ix, name, caps, p) ==> MetByOne(ix, name, caps, p)
  }

  /** The provider states one version, however it spells it. */
  ghost predicate OneVersion(ix: Index, name: string, p: string) {
    forall e, e' :: e in Versions(ix, name, p) && e' in Versions(ix, name, p) ==> CompareEvr(e, e') == 0
  }

  /** A version a bound on the name can be written with. */
  predicate Writable(name: string, e: Evr) {
    WellPunctuated(e) && forall op :: Legible(name, op, BoundText(e))
  }

  // ── One bound ────────────────────────────────────────────────────────

  lemma EqualVersionsAgree(e: Evr, e': Evr, op: Option<Op>, wanted: string)
    requires CompareEvr(e, e') == 0 && SatisfiesConstraint(Some(e), op, wanted)
    ensures SatisfiesConstraint(Some(e'), op, wanted)
  {
    EvrTotalPreorder(e, e', e);
    PrecisionMonotone(e, e', wanted);
    PrecisionMonotone(e', e, wanted);
  }

  /** The version, as precisely as a bound states its own. */
  function AsPreciseAs(v: Evr, e: Evr): Evr {
    if Truthy(e.release) then v else v.(release := None)
  }

  /** The bound `op e`, on any version. */
  lemma BoundAt(name: string, op: Op, e: Evr, v: Evr)
    requires Writable(name, e)
    ensures var s := SplitConstraint(Rendered(name, op, e));
      SatisfiesConstraint(Some(v), s.op, s.wanted) <==> OpHolds(op, CompareEvr(AsPreciseAs(v, e), e))
    ensures StripVersion(Rendered(name, op, e)) == name
  {
    RenderedReadsBack(name, op, e);
    BoundMeansVersion(v, op, e);
    assert v.(release := v.release) == v;
    assert OrEmpty(StatedRelease(e)) == OrEmpty(e.release);
  }

  lemma StatedSatisfies(ix: Index, name: string, p: string, e: Evr, c: string)
    requires e in Versions(ix, name, p) && SatisfiesConstraint(Some(e), SplitConstraint(c).op, SplitConstraint(c).wanted)
    ensures AnyVersionSatisfies(Versions(ix, name, p), SplitConstraint(c).op, SplitConstraint(c).wanted)
  {
    var i :| 0 <= i < |Versions(ix, name, p)| && Versions(ix, name, p)[i] == e;
  }

  /** A version that compares as the bound asks meets it, and so does who states it. */
  lemma BoundMet(ix: Index, name: string, p: string, op: Op, e: Evr, v: Evr)
    requires Writable(name, e) && v in Versions(ix, name, p) && OpHolds(op, CompareEvr(AsPreciseAs(v, e), e))
    ensures var s := SplitConstraint(Rendered(name, op, e));
      && s.name == name && SatisfiesConstraint(Some(v), s.op, s.wanted)
      && AnyVersionSatisfies(Versions(ix, name, p), s.op, s.wanted)
  {
    BoundAt(name, op, e, v);
    StatedSatisfies(ix, name, p, v, Rendered(name, op, e));
  }

  /** Two bounds, each met by a version a provider states. */
  lemma TwoBoundsMet(ix: Index, name: string, p: string, op: Op, e: Evr, v: Evr, op': Op, e': Evr, v': Evr)
    requires Writable(name, e) && v in Versions(ix, name, p) && OpHolds(op, CompareEvr(AsPreciseAs(v, e), e))
    requires Writable(name, e') && v' in Versions(ix, name, p) && OpHolds(op', CompareEvr(AsPreciseAs(v', e'), e'))
    ensures var caps := [Rendered(name, op, e), Rendered(name, op', e')];
      BoundsOf(name, caps) && MeetsEach(ix, name, caps, p) && (v == v' ==> MeetsBounds(v, caps))
  {
    BoundMet(ix, name, p, op, e, v);
    BoundMet(ix, name, p, op', e', v');
  }

  // ── Accepted bound by bound ──────────────────────────────────────────

  lemma OneVersionSuffices(ix: Index, name: string, caps: seq<string>, p: string, e: Evr)
    requires OneVersion(ix, name, p) && MeetsEach(ix, name, caps, p) && e in Versions(ix, name, p)
    ensures MeetsBounds(e, caps)
  {
    var stated := Versions(ix, name, p);
    forall c | c in caps ensures SatisfiesConstraint(Some(e), SplitConstraint(c).op, SplitConstraint(c).wanted) {
      var s := SplitConstraint(c);
      var i :| 0 <= i < |stated| && SatisfiesConstraint(Some(stated[i]), s.op, s.wanted);
      EqualVersionsAgree(stated[i], e, s.op, s.wanted);
    }
  }

  /** At least the newer and below it; or, where only the older states a release, above the older and not above it. */
  function NothingBetween(name: string, lo: Evr, hi: Evr): seq<string> {
    if Truthy(hi.release) || !Truthy(lo.release) then [Rendered(name, Ge, hi), Rendered(name, Lt, hi)]
    else [Rendered(name, Gt, lo), Rendered(name, Le, lo)]
  }

  /** Two versions, one older: accepted for a range that holds no version at all. */
  lemma TwoVersionsMislead(ix: Index, name: string, p: string, lo: Evr, hi: Evr)
    requires Writable(name, lo) && Writable(name, hi)
    requires lo in Versions(ix, name, p) && hi in Versions(ix, name, p) && CompareEvr(lo, hi) < 0
    ensures var caps := NothingBetween(name, lo, hi);
      BoundsOf(name, caps) && MeetsEach(ix, name, caps, p) && forall v :: !MeetsBounds(v, caps)
  {
    EvrTotalPreorder(hi, lo, hi);
    EvrTotalPreorder(hi, hi, hi);
    EvrTotalPreorder(lo, lo, lo);
    if Truthy(hi.release) || !Truthy(lo.release) {
      BothHalves(ix, name, p, Ge, Lt, hi, hi, lo);
    } else {
      BothHalves(ix, name, p, Gt, Le, lo, hi, lo);
    }
  }

  /** One version meets a bound and another the opposite one. */
  lemma BothHalves(ix: Index, name: string, p: string, op: Op, op': Op, e: Evr, v: Evr, v': Evr)
    requires Writable(name, e) && forall c :: !(OpHolds(op, c) && OpHolds(op', c))
    requires v in Versions(ix, name, p) && v' in Versions(ix, name, p)
    requires OpHolds(op, CompareEvr(AsPreciseAs(v, e), e)) && OpHolds(op', CompareEvr(AsPreciseAs(v', e), e))
    ensures var caps := [Rendered(name, op, e), Rendered(name, op', e)];
      BoundsOf(name, caps) && MeetsEach(ix, name, caps, p) && forall v :: !MeetsBounds(v, caps)
  {
    var caps := [Rendered(name, op, e), Rendered(name, op', e)];
    TwoBoundsMet(ix, name, p, op, e, v, op', e, v');
    forall v ensures !MeetsBounds(v, caps) { NotBoth(name, op, op', e, v); }
  }

  lemma NotBoth(name: string, op: Op, op': Op, e: Evr, v: Evr)
    requires Writable(name, e) && forall c :: !(OpHolds(op, c) && OpHolds(op', c))
    ensures !MeetsBounds(v, [Rendered(name, op, e), Rendered(name, op', e)])
  {
    var caps := [Rendered(name, op, e), Rendered(name, op', e)];
    BoundAt(name, op, e, v);
    BoundAt(name, op', e, v);
    assert caps[0] in caps && caps[1] in caps;
  }

  /** Two of a provider's versions that differ, the older first. */
  lemma Differing(ix: Index, name: string, p: string) returns (lo: Evr, hi: Evr)
    requires !OneVersion(ix, name, p)
    ensures lo in Versions(ix, name, p) && hi in Versions(ix, name, p) && CompareEvr(lo, hi) < 0
  {
    lo, hi :| lo in Versions(ix, name, p) && hi in Versions(ix, name, p) && CompareEvr(lo, hi) != 0;
    EvrTotalPreorder(lo, hi, lo);
    if CompareEvr(lo, hi) > 0 { lo, hi := hi, lo; }
  }

  /** Acceptance bound by bound means acceptance by a version exactly for providers that state one version. */
  lemma AcceptedTrulyIff(ix: Index, name: string, p: string)
    requires forall e :: e in Versions(ix, name, p) ==> Writable(name, e)
    ensures AcceptedTruly(ix, name, p) <==> OneVersion(ix, name, p)
  {
    if OneVersion(ix, name, p) {
      forall caps | BoundsOf(name, caps) && MeetsEach(ix, name, caps, p) ensures MetByOne(ix, name, caps, p) {
        if Versions(ix, name, p) != [] { OneVersionSuffices(ix, name, caps, p, Versions(ix, name, p)[0]); }
      }
    } else {
      var lo, hi := Differing(ix, name, p);
      TwoVersionsMislead(ix, name, p, lo, hi);
      assert !MetByOne(ix, name, NothingBetween(name, lo, hi), p);
    }
  }

  // ── The newest in range ──────────────────────────────────────────────

  /** `p` states a version in range, and no provider that is accepted states a newer one in range. */
  ghost predicate NewestInRange(ix: Index, name: string, caps: seq<string>, p: string) {
    exists e :: e in Versions(ix, name, p) && MeetsBounds(e, caps) && NoneNewer(ix, name, caps, e)
  }

  ghost predicate NoneNewer(ix: Index, name: string, caps: seq<string>, e: Evr) {
    forall q, e' ::
      q in Providers(ix, name) && MeetsEach(ix, name, caps, q) && e' in Versions(ix, name, q) && MeetsBounds(e', caps) ==>
        CompareEvr(e', e) <= 0
  }

  /** A package is chosen that states a version. */
  predicate Answered(ix: Index, name: string, caps: seq<string>) {
    ResolveRange(ix, caps).Chosen? && Versions(ix, name, ResolveRange(ix, caps).pkg) != []
  }

  /** Whatever the range, the package chosen for it states the newest version in it, if it states one at all. */
  ghost predicate AlwaysNewestInRange(ix: Index, name: string) {
    forall caps ::
      BoundsOf(name, caps) && Answered(ix, name, caps) ==> NewestInRange(ix, name, caps, ResolveRange(ix, caps).pkg)
  }

  lemma ChosenIsNewest(ix: Index, name: string, caps: seq<string>)
    requires name !in ix.overrides && BoundsOf(name, caps) && Answered(ix, name, caps)
    requires forall p :: p in Providers(ix, name) ==> OneVersion(ix, name, p)
    ensures NewestInRange(ix, name, caps, ResolveRange(ix, caps).pkg)
  {
    assert caps[0] in caps;
    var c := ResolveRange(ix, caps).pkg;
    RangeAnswer(ix, caps);
    var e := Versions(ix, name, c)[0];
    OneVersionSuffices(ix, name, caps, c, e);
    forall q, e' | q in Providers(ix, name) && MeetsEach(ix, name, caps, q) && e' in Versions(ix, name, q)
      ensures CompareEvr(e', e) <= 0
    {
      RangeTakesNewest(ix, caps, q, e');
      var best :| best in Versions(ix, name, c) && CompareEvr(e', best) <= 0;
      EvrTotalPreorder(e', best, e);
    }
    assert NoneNewer(ix, name, caps, e);
  }

  /** Where an accepted provider states a version, one is chosen that does. */
  lemma AcceptedIsAnswered(ix: Index, name: string, caps: seq<string>, p: string, e: Evr)
    requires name !in ix.overrides && BoundsOf(name, caps)
    requires p in Providers(ix, name) && MeetsEach(ix, name, caps, p) && e in Versions(ix, name, p)
    ensures Answered(ix, name, caps)
  {
    assert caps[0] in caps;
    RangeAnswer(ix, caps);
    var candidates := Sorted(Narrow(ix, name, caps, Providers(ix, name)));
    assert p in candidates;
    BestAmongIsMaximal(ix, name, None, "", candidates, None);
    assert Offered(ix, name, None, "", candidates, Offer(p, e));
  }

  /** The range between two versions of one provider is answered by a package that states no version in it. */
  lemma ChosenOutOfRange(ix: Index, name: string, p: string, lo: Evr, hi: Evr)
    requires name !in ix.overrides && p in Providers(ix, name) && Writable(name, lo) && Writable(name, hi)
    requires lo in Versions(ix, name, p) && hi in Versions(ix, name, p) && CompareEvr(lo, hi) < 0
    ensures var caps := NothingBetween(name, lo, hi);
      && BoundsOf(name, caps) && Answered(ix, name, caps)
      && !NewestInRange(ix, name, caps, ResolveRange(ix, caps).pkg)
  {
    var caps := NothingBetween(name, lo, hi);
    TwoVersionsMislead(ix, name, p, lo, hi);
    AcceptedIsAnswered(ix, name, caps, p, hi);
  }

  /** The answer to a range is always the newest version in it exactly if every provider states one version. */
  lemma NewestInRangeIff(ix: Index, name: string)
    requires name !in ix.overrides
    requires forall p, e :: p in Providers(ix, name) && e in Versions(ix, name, p) ==> Writable(name, e)
    ensures AlwaysNewestInRange(ix, name) <==> forall p :: p in Providers(ix, name) ==> OneVersion(ix, name, p)
  {
    if p :| p in Providers(ix, name) && !OneVersion(ix, name, p) {
      var lo, hi := Differing(ix, name, p);
      ChosenOutOfRange(ix, name, p, lo, hi);
    } else {
      forall caps | BoundsOf(name, caps) && Answered(ix, name, caps)
        ensures NewestInRange(ix, name, caps, ResolveRange(ix, caps).pkg)
      {
        ChosenIsNewest(ix, name, caps);
      }
    }
  }

  /** A provider of versions below and above another's, each outside a range on its own bound's account, is chosen for it. */
  lemma NewerOutOfRange(ix: Index, name: string, p: string, q: string, lo: Evr, mid: Evr, hi: Evr)
    requires name !in ix.overrides && forall x :: x in Providers(ix, name) <==> x == p || x == q
    requires Versions(ix, name, p) == [lo, hi] && Versions(ix, name, q) == [mid]
    requires Writable(name, lo) && Writable(name, hi) && Truthy(lo.release) && Truthy(hi.release)
    requires CompareEvr(lo, mid) < 0 && CompareEvr(mid, hi) < 0
    ensures var caps := [Rendered(name, Ge, lo), Rendered(name, Lt, hi)];
      && ResolveRange(ix, caps) == Chosen(p)
      && RangeMet(ix, caps, q) && MeetsBounds(mid, caps)
      && forall e :: e in Versions(ix, name, p) && MeetsBounds(e, caps) ==> CompareEvr(e, mid) < 0
  {
    var caps := [Rendered(name, Ge, lo), Rendered(name, Lt, hi)];
    InBetween(ix, name, p, q, lo, mid, hi);
    assert Versions(ix, name, p)[1] == hi;
    AcceptedIsAnswered(ix, name, caps, p, hi);
    RangeAnswer(ix, caps);
    RangeTakesNewest(ix, caps, p, hi);
    EvrTotalPreorder(mid, hi, mid);
    OwnBoundExcludes(name, lo, hi);
  }

  lemma OwnBoundExcludes(name: string, lo: Evr, hi: Evr)
    requires Writable(name, hi) && Truthy(hi.release)
    ensures !MeetsBounds(hi, [Rendered(name, Ge, lo), Rendered(name, Lt, hi)])
  {
    var caps := [Rendered(name, Ge, lo), Rendered(name, Lt, hi)];
    BoundAt(name, Lt, hi, hi);
    EvrTotalPreorder(hi, hi, hi);
    assert caps[1] in caps;
  }

  lemma InBetween(ix: Index, name: string, p: string, q: string, lo: Evr, mid: Evr, hi: Evr)
    requires Versions(ix, name, p) == [lo, hi] && Versions(ix, name, q) == [mid]
    requires Writable(name, lo) && Writable(name, hi) && Truthy(lo.release) && Truthy(hi.release)
    requires CompareEvr(lo, mid) < 0 && CompareEvr(mid, hi) < 0
    ensures var caps := [Rendered(name, Ge, lo), Rendered(name, Lt, hi)];
      BoundsOf(name, caps) && MeetsBounds(mid, caps) && MeetsEach(ix, name, caps, p) && MeetsEach(ix, name, caps, q)
  {
    EvrTotalPreorder(lo, mid, hi);
    EvrTotalPreorder(hi, lo, mid);
    EvrTotalPreorder(lo, lo, lo);
    assert Versions(ix, name, p)[0] == lo && Versions(ix, name, q)[0] == mid;
    TwoBoundsMet(ix, name, p, Ge, lo, lo, Lt, hi, lo);
    TwoBoundsMet(ix, name, q, Ge, lo, mid, Lt, hi, mid);
  }
}
