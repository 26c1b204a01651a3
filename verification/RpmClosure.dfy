/** The closure of RPM packages: the rules of `runtime_closure` made concrete, and what they give. */
module RpmClosure {
  import opened Options
  import opened TextOrder
  import opened PyText
  import opened RpmVersion
  import opened Requirement
  import opened Provider
  import opened BooleanDeps
  import opened ClosureRules
  import opened ClosureFixpoint
  import opened ClosureRun
  import opened ClosureMeaning
  import opened RuntimeClosure

  // ── Version ranges ───────────────────────────────────────────────────

  /** Keep the packages that meet every bound, each by some version they state. */
  function Narrow(ix: Index, name: string, caps: seq<string>, pkgs: seq<string>): (r: seq<string>)
    ensures forall p :: p in r <==> p in pkgs && MeetsEach(ix, name, caps, p)
  {
    if caps == [] then pkgs
    else
      var s := SplitConstraint(caps[0]);
      assert caps == [caps[0]] + caps[1..];
      Narrow(ix, name, caps[1..], Satisfying(ix, name, s.op, s.wanted, pkgs))
  }

  predicate MeetsEach(ix: Index, name: string, caps: seq<string>, p: string) {
    forall c :: c in caps ==>
      AnyVersionSatisfies(Versions(ix, name, p), SplitConstraint(c).op, SplitConstraint(c).wanted)
  }

  /** `resolve_range`: one provider that meets every bound, the newest stated version deciding between several. */
  function ResolveRange(ix: Index, caps: seq<string>): Resolution {
    if caps == [] then NoProvider
    else
      var name := StripVersion(caps[0]);
      if name in ix.overrides then Chosen(ix.overrides[name])
      else if Providers(ix, name) == [] then NoProvider
      else
        var candidates := Sorted(Narrow(ix, name, caps, Providers(ix, name)));
        if candidates == [] then WrongVersion
        else if |candidates| == 1 then Chosen(candidates[0])
        else
          var best := BestAmong(ix, name, None, "", candidates, None);
          if best.Some? then Chosen(best.value.pkg) else Ambiguous(candidates)
  }

  predicate RangeMet(ix: Index, caps: seq<string>, p: string)
    requires caps != []
  {
    p in Providers(ix, StripVersion(caps[0])) && MeetsEach(ix, StripVersion(caps[0]), caps, p)
  }

  /** A range without an override is answered by a provider that meets every bound, or by all of them, or by none. */
  lemma RangeAnswer(ix: Index, caps: seq<string>)
    requires caps != [] && StripVersion(caps[0]) !in ix.overrides
    ensures var r := ResolveRange(ix, caps);
      && (r.Chosen? ==> RangeMet(ix, caps, r.pkg))
      && (r.Ambiguous? ==> forall p :: p in r.candidates <==> RangeMet(ix, caps, p))
      && (r.NoProvider? || r.WrongVersion? ==> forall p :: !RangeMet(ix, caps, p))
  {
    var name := StripVersion(caps[0]);
    var candidates := Sorted(Narrow(ix, name, caps, Providers(ix, name)));
    assert forall p :: p in candidates <==> RangeMet(ix, caps, p);
    BestAmongIsMaximal(ix, name, None, "", candidates, None);
    assert |candidates| == 1 ==> candidates[0] in candidates;
  }

  /** The override of a range's name answers it, whatever provides it and whatever the bounds are. */
  lemma RangeOverrideAnswers(ix: Index, caps: seq<string>, answer: string, provided: map<string, seq<string>>,
                             provideEvr: map<string, map<string, seq<Evr>>>)
    requires caps != [] && StripVersion(caps[0]) in ix.overrides && ix.overrides[StripVersion(caps[0])] == answer
    ensures ResolveRange(ix.(provided := provided, provideEvr := provideEvr), caps) == Chosen(answer)
  {
  }

  /** Between several, no provider that meets the bounds states any version newer than one the answer states. */
  lemma RangeTakesNewest(ix: Index, caps: seq<string>, p: string, e: Evr)
    requires caps != [] && StripVersion(caps[0]) !in ix.overrides && ResolveRange(ix, caps).Chosen?
    requires RangeMet(ix, caps, p) && e in Versions(ix, StripVersion(caps[0]), p)
    ensures exists e' :: e' in Versions(ix, StripVersion(caps[0]), ResolveRange(ix, caps).pkg) && CompareEvr(e, e') <= 0
  {
    var name := StripVersion(caps[0]);
    var candidates := Sorted(Narrow(ix, name, caps, Providers(ix, name)));
    assert p in candidates;
    if |candidates| == 1 {
      assert p == candidates[0];
      EvrTotalPreorder(e, e, e);
    } else {
      BestAmongIsMaximal(ix, name, None, "", candidates, None);
      assert Offered(ix, name, None, "", candidates, Offer(p, e));
    }
  }

  // ── The rules ────────────────────────────────────────────────────────

  /** Those of `names` that every list provides. */
  function Common(ix: Index, names: seq<string>): (r: seq<string>)
    ensures forall p, n :: p in r && n in names ==> p in Providers(ix, n)
    ensures forall p :: (names != [] && forall n :: n in names ==> p in Providers(ix, n)) ==> p in r
  {
    if names == [] then []
    else if |names| == 1 then Sorted(Providers(ix, names[0]))
    else
      assert names == [names[0]] + names[1..];
      Sorted(Both(Providers(ix, names[0]), Common(ix, names[1..])))
  }

  function Both(xs: seq<string>, ys: seq<string>): (r: seq<string>)
    ensures forall x :: x in r <==> x in xs && x in ys
  {
    if xs == [] then []
    else
      assert xs == [xs[0]] + xs[1..];
      (if xs[0] in ys then [xs[0]] else []) + Both(xs[1..], ys)
  }

  function Except(xs: seq<string>, ys: seq<string>): (r: seq<string>)
    ensures forall x :: x in r <==> x in xs && x !in ys
  {
    if xs == [] then []
    else
      assert xs == [xs[0]] + xs[1..];
      (if xs[0] in ys then [] else [xs[0]]) + Except(xs[1..], ys)
  }

  function RpmRules(ix: Index, needs: map<string, seq<string>>): Rules {
    Rules(
      (c: string) => StripVersion(c),
      (c: string) => IsRichDep(c),
      (c: string) => ParseBoolean(RpmWord, c),
      (n: Node) => Unparse(RpmWord, n),
      (c: string) => Resolve(ix, c),
      (c: string) => Resolve(ix.(provideEvr := map[]), c),
      (cs: seq<string>) => ResolveRange(ix, cs),
      (cs: seq<string>) => Join(cs, " with "),
      (cs: seq<string>, p: string) => cs != [] && RangeMet(ix, cs, p),
      (n: string) => Providers(ix, n),
      (ns: seq<string>) => Common(ix, ns),
      (l: string, n: string) => Sorted(Except(Providers(ix, l), Providers(ix, n))),
      ix.overrides,
      needs)
  }

  // ── Overrides ────────────────────────────────────────────────────────

  datatype BadOverride = NothingProvides(capability: string, pkg: string) | DoesNotProvide(capability: string, pkg: string)

  function CheckOverride(ix: Index, k: string): Option<BadOverride>
    requires k in ix.overrides
  {
    if IsRichDep(k) then None
    else if Providers(ix, k) == [] then Some(NothingProvides(k, ix.overrides[k]))
    else if ix.overrides[k] !in Providers(ix, k) then Some(DoesNotProvide(k, ix.overrides[k]))
    else None
  }

  function BadAmong(ix: Index, keys: seq<string>): seq<BadOverride>
    requires forall k :: k in keys ==> k in ix.overrides
  {
    if keys == [] then []
    else
      var found, rest := CheckOverride(ix, keys[0]), BadAmong(ix, keys[1..]);
      if found.Some? then [found.value] + rest else rest
  }

  /** Sorted keys give exactly the bad overrides, sorted. */
  lemma {:induction false} BadAmongExactly(ix: Index, keys: seq<string>)
    requires Ascending(keys) && forall k :: k in keys ==> k in ix.overrides
    ensures forall b :: b in BadAmong(ix, keys) <==> b.capability in keys && CheckOverride(ix, b.capability) == Some(b)
    ensures forall i, j :: 0 <= i < j < |BadAmong(ix, keys)| ==>
      Less(BadAmong(ix, keys)[i].capability, BadAmong(ix, keys)[j].capability)
  {
    if keys != [] {
      var rest := keys[1..];
      assert keys == [keys[0]] + rest;
      BadAmongExactly(ix, rest);
      forall b | b in BadAmong(ix, rest) ensures Less(keys[0], b.capability) {
        var i :| 0 <= i < |rest| && rest[i] == b.capability;
        assert keys[i + 1] == rest[i];
      }
      var all, tail := BadAmong(ix, keys), BadAmong(ix, rest);
      forall i, j | 0 <= i < j < |all| ensures Less(all[i].capability, all[j].capability) {
        if CheckOverride(ix, keys[0]).Some? && i == 0 { assert all[j] == tail[j - 1]; }
      }
    }
  }

  /** `validate_overrides`: every flag that does not name a provider of its capability, in one pass. */
  method ValidateOverrides(ix: Index) returns (bad: seq<BadOverride>)
    ensures forall b :: b in bad <==> b.capability in ix.overrides && CheckOverride(ix, b.capability) == Some(b)
    ensures forall i, j :: 0 <= i < j < |bad| ==> Less(bad[i].capability, bad[j].capability)
    ensures bad == [] <==> OverridesProvide(ix)
    ensures forall b :: b in bad <==> IsBad(ix, b)
  {
    var keys := SortSet(ix.overrides.Keys);
    assert forall k :: k in keys <==> k in ix.overrides;
    bad := CheckEach(ix, keys);
    BadAmongExactly(ix, keys);
    CleanExactly(ix, bad);
    forall b ensures b in bad <==> IsBad(ix, b) { BadSpelled(ix, b); }
  }

  /** A plain key whose answer does not provide it, told apart from one that nothing provides. */
  ghost predicate IsBad(ix: Index, b: BadOverride) {
    && b.capability in ix.overrides && !IsRichDep(b.capability) && b.pkg == ix.overrides[b.capability]
    && b.pkg !in Providers(ix, b.capability)
    && (b.NothingProvides? <==> forall p :: p !in Providers(ix, b.capability))
  }

  lemma BadSpelled(ix: Index, b: BadOverride)
    ensures b.capability in ix.overrides && CheckOverride(ix, b.capability) == Some(b) <==> IsBad(ix, b)
  {
    var providers := Providers(ix, b.capability);
    assert providers != [] ==> providers[0] in providers;
  }

  method CheckEach(ix: Index, keys: seq<string>) returns (bad: seq<BadOverride>)
    requires forall k :: k in keys ==> k in ix.overrides
    ensures bad == BadAmong(ix, keys)
  {
    bad := [];
    ghost var rest := keys;
    for i := 0 to |keys|
      invariant rest == keys[i..] && bad + BadAmong(ix, rest) == BadAmong(ix, keys)
    {
      var found := CheckOverride(ix, keys[i]);
      if found.Some? {
        assert bad + ([found.value] + BadAmong(ix, rest[1..])) == bad + [found.value] + BadAmong(ix, rest[1..]);
        bad := bad + [found.value];
      }
      rest := rest[1..];
    }
    assert rest == [];
  }

  lemma CleanExactly(ix: Index, bad: seq<BadOverride>)
    requires forall b :: b in bad <==> b.capability in ix.overrides && CheckOverride(ix, b.capability) == Some(b)
    ensures bad == [] <==> OverridesProvide(ix)
  {
    assert bad != [] ==> bad[0] in bad;
    if !OverridesProvide(ix) {
      var k :| k in ix.overrides && !IsRichDep(k) && ix.overrides[k] !in Providers(ix, k);
      assert CheckOverride(ix, k).value in bad;
    }
  }

  /** What a clean validation means. */
  ghost predicate OverridesProvide(ix: Index) {
    forall k :: k in ix.overrides && !IsRichDep(k) ==> ix.overrides[k] in Providers(ix, k)
  }

  /** A name as repositories state it: no constraint, no expression, no several bounds. */
  predicate BareName(k: string) {
    StripVersion(k) == k && !IsRichDep(k) && Find(k, " with ").None?
  }

  /** Overrides are keyed on expressions or on bare names. */
  ghost predicate ReadableKeys(ix: Index) {
    forall k :: k in ix.overrides ==> IsRichDep(k) || BareName(k)
  }

  /** Neither what is provided nor who provides it reads as an expression. */
  ghost predicate NoneRich(ix: Index) {
    && (forall k :: Providers(ix, k) != [] ==> !IsRichDep(k))
    && (forall k, p :: p in Providers(ix, k) ==> !IsRichDep(p))
  }

  /** Where repositories provide only bare names, a clean validation leaves only such keys. */
  lemma CleanIsReadable(ix: Index)
    requires OverridesProvide(ix) && forall k, p :: p in Providers(ix, k) ==> BareName(k)
    ensures ReadableKeys(ix)
  {
    forall k | k in ix.overrides ensures IsRichDep(k) || BareName(k) {
      if !IsRichDep(k) { assert ix.overrides[k] in Providers(ix, k); }
    }
  }

  ghost predicate SelfProvided(ix: Index) {
    forall k, p, q :: p in Providers(ix, k) && q in Providers(ix, p) ==> q == p
  }

  // ── The rules keep their promises ────────────────────────────────────

  /** A text that begins as an expression does is read as one, and only such a text. */
  lemma {:induction false} RichStart(a: string, b: string)
    ensures IsRichDep(a) ==> IsRichDep(a + b)
    ensures IsRichDep(a + b) && LStrip(a) != "" ==> IsRichDep(a)
    ensures LStrip(a) == "" ==> LStrip(a + b) == LStrip(b)
  {
    if a == "" {
      assert a + b == b;
    } else if IsSpace(a[0]) {
      assert (a + b)[1..] == a[1..] + b && (a + b)[0] == a[0];
      RichStart(a[1..], b);
    } else {
      assert (a + b)[0] == a[0];
    }
  }

  lemma {:induction false} RichStripped(a: string)
    ensures IsRichDep(Strip(a)) <==> IsRichDep(a)
  {
    var t := LStrip(a);
    StripTrimmed(t);
    assert LStrip(t) == t;
    var u := RStrip(t);
    assert u == t[..|u|];
    if t != "" && t[0] == '(' {
      RStripKeepsFirst(t);
    }
    assert LStrip(u) == u;
  }

  lemma {:induction false} RStripKeepsFirst(t: string)
    requires t != "" && !IsSpace(t[0])
    ensures RStrip(t) != "" && RStrip(t)[0] == t[0]
  {
    if IsSpace(t[|t| - 1]) { RStripKeepsFirst(t[..|t| - 1]); }
  }

  /** Stripping the version of a plain capability gives a plain one, and of an expression an expression. */
  lemma RichIsStripped(c: string)
    ensures IsRichDep(StripVersion(c)) <==> IsRichDep(c)
  {
    RichStripped(c);
    if !IsRichDep(c) { PlainIsStripped(c, OPS); }
  }

  lemma {:induction false} PlainIsStripped(c: string, ops: seq<Op>)
    requires !IsRichDep(c)
    ensures !IsRichDep(SplitAt(c, ops).name)
  {
    RichStripped(c);
    if ops != [] {
      var at := Find(c, Sign(ops[0]));
      if at.Some? {
        assert c == c[..at.value] + c[at.value..];
        RichStart(c[..at.value], c[at.value..]);
        RichStripped(c[..at.value]);
      } else {
        PlainIsStripped(c, ops[1..]);
      }
    }
  }

  /** Several bounds joined are no bare name. */
  lemma JoinedIsNotBare(cs: seq<string>)
    requires |cs| > 1
    ensures !BareName(Join(cs, " with "))
  {
    var sep := " with ";
    var text := Join(cs, sep);
    assert text == cs[0] + sep + Join(cs[1..], sep);
    assert Stands(text, sep, |cs[0]|);
    FindFirst(text, sep);
  }

  /** Nor are they an expression, if the first is none. */
  lemma JoinedIsNotRich(cs: seq<string>)
    requires |cs| > 1 && !IsRichDep(cs[0])
    ensures !IsRichDep(Join(cs, " with "))
  {
    var rest := " with " + Join(cs[1..], " with ");
    assert Join(cs, " with ") == cs[0] + rest;
    RichStart(cs[0], rest);
    assert rest[0] == ' ' && rest[1..][0] == 'w' && LStrip(rest) == LStrip(rest[1..]);
  }

  lemma RangeStands(ix: Index, cs: seq<string>)
    requires ReadableKeys(ix) && NoneRich(ix) && ResolveRange(ix, cs).Ambiguous?
    ensures Join(cs, " with ") !in ix.overrides
  {
    AmbiguousIsPlain(ix, cs);
    if |cs| > 1 {
      JoinedIsNotBare(cs);
      JoinedIsNotRich(cs);
    }
  }

  lemma AmbiguousIsPlain(ix: Index, cs: seq<string>)
    requires NoneRich(ix) && ResolveRange(ix, cs).Ambiguous?
    ensures cs != [] && StripVersion(cs[0]) !in ix.overrides && !IsRichDep(cs[0])
  {
    var name := StripVersion(cs[0]);
    assert Providers(ix, name) != [];
    RichIsStripped(cs[0]);
  }

  /** Keyed on expressions or bare names, overrides never decide a choice of providers that is looked at again. */
  lemma ChoicesStandForRpm(ix: Index, needs: map<string, seq<string>>)
    requires ReadableKeys(ix) && NoneRich(ix)
    ensures ChoicesStand(RpmRules(ix, needs))
  {
    var r := RpmRules(ix, needs);
    forall cs {:trigger r.range(cs)} | r.range(cs).Ambiguous? ensures r.rangeText(cs) !in r.overrides {
      RangeStands(ix, cs);
    }
  }

  lemma ResolveIsTrue(ix: Index, c: string)
    requires ReadableKeys(ix) && OverridesProvide(ix) && !IsRichDep(c)
    ensures var res := Resolve(ix, c);
      && (res.Chosen? ==> res.pkg in Providers(ix, StripVersion(c)))
      && (res.Ambiguous? ==> c !in ix.overrides && forall p :: p in res.candidates ==> p in Providers(ix, StripVersion(c)))
  {
    RichIsStripped(c);
    if !Overridden(ix, c) {
      RefusedExactlyWhen(ix, c);
      if Resolve(ix, c).Chosen? { ChosenMeets(ix, c); }
    }
  }

  lemma RangeResolvesTruly(ix: Index, needs: map<string, seq<string>>, cs: seq<string>)
    requires ReadableKeys(ix) && NoneRich(ix) && OverridesProvide(ix) && cs != [] && !IsRichDep(StripVersion(cs[0]))
    ensures var r := RpmRules(ix, needs);
      && ResolvesTruly(r, r.range(cs), r.strip(cs[0]), r.rangeText(cs))
      && (r.strip(cs[0]) !in r.overrides ==> ResolvesWithin(r, r.range(cs), cs))
  {
    if StripVersion(cs[0]) !in ix.overrides { RangeAnswer(ix, cs); }
    if ResolveRange(ix, cs).Ambiguous? { RangeStands(ix, cs); }
  }

  lemma BareIsTrue(ix: Index, c: string)
    requires ReadableKeys(ix) && OverridesProvide(ix) && !IsRichDep(c) && Resolve(ix.(provideEvr := map[]), c).Chosen?
    ensures Resolve(ix.(provideEvr := map[]), c).pkg in Providers(ix, StripVersion(c))
  {
    ResolveIsTrue(ix.(provideEvr := map[]), c);
  }

  lemma CommonIsTrue(ix: Index, needs: map<string, seq<string>>)
    ensures var r := RpmRules(ix, needs); forall names, p, n :: p in r.common(names) && n in names ==> p in r.providers(n)
  {
  }

  lemma WithoutIsTrue(ix: Index, needs: map<string, seq<string>>)
    ensures var r := RpmRules(ix, needs);
      forall l, n, p :: p in r.without(l, n) ==> p in r.providers(l) && p !in r.providers(n)
  {
  }

  /** What the meaning of a closure rests on. */
  ghost predicate Reliable(ix: Index) {
    ReadableKeys(ix) && NoneRich(ix) && OverridesProvide(ix) && SelfProvided(ix)
  }

  /**
   * Clean overrides, keyed on expressions or bare names, and names that are no
   * expressions and are provided only by themselves.
   */
  lemma TrustyForRpm(ix: Index, needs: map<string, seq<string>>)
    requires Reliable(ix)
    ensures Trusty(RpmRules(ix, needs))
  {
    HonestForRpm(ix, needs);
  }

  lemma HonestForRpm(ix: Index, needs: map<string, seq<string>>)
    requires ReadableKeys(ix) && NoneRich(ix) && OverridesProvide(ix)
    ensures Honest(RpmRules(ix, needs))
  {
    var r := RpmRules(ix, needs);
    forall c {:trigger r.resolve(c)} | !r.rich(c) ensures ResolvesTruly(r, r.resolve(c), r.strip(c), c) {
      ResolveIsTrue(ix, c);
    }
    forall c {:trigger r.resolveBare(c)} | !r.rich(c) && r.resolveBare(c).Chosen?
      ensures r.resolveBare(c).pkg in r.providers(r.strip(c))
    {
      BareIsTrue(ix, c);
    }
    forall cs {:trigger r.range(cs)} | cs != [] && !r.rich(r.strip(cs[0]))
      ensures ResolvesTruly(r, r.range(cs), r.strip(cs[0]), r.rangeText(cs))
      ensures r.strip(cs[0]) !in r.overrides ==> ResolvesWithin(r, r.range(cs), cs)
    {
      RangeResolvesTruly(ix, needs, cs);
    }
    CommonIsTrue(ix, needs);
    WithoutIsTrue(ix, needs);
  }

  // ── What a solve gives ───────────────────────────────────────────────

  /** One requirement holds of the closure: a plain one at the version it asks for, unless an override answers it. */
  ghost predicate NeedHolds(ix: Index, r: Rules, cap: string, atRoot: bool, s: set<string>) {
    if IsRichDep(StripVersion(cap)) then
      r.read(StripVersion(cap)).Some? && Holds(r, r.read(StripVersion(cap)).value, s)
    else
      var asked := Asked(r, cap, atRoot);
      exists p :: p in s && if Overridden(ix, asked) then p in Providers(ix, StripVersion(asked)) else Meets(ix, asked, p)
  }

  ghost predicate NeedReported(r: Rules, cap: string, atRoot: bool, who: string, problems: seq<Problem>) {
    exists o :: o in MayNeed(r, cap, atRoot) && OutcomeReported(o, who, problems)
  }

  /** Plain, unreadable, or one of the shapes the solver evaluates completely. */
  ghost predicate NeedFlat(r: Rules, cap: string) {
    r.rich(r.strip(cap)) && r.read(r.strip(cap)).Some? ==> Flat(r, r.read(r.strip(cap)).value)
  }

  lemma PlainHolds(ix: Index, needs: map<string, seq<string>>, cap: string, atRoot: bool, who: string, s: set<string>,
                   problems: seq<Problem>)
    requires Reliable(ix) && !IsRichDep(StripVersion(cap))
    requires var r := RpmRules(ix, needs); OutcomeAnswered(r, PlainOutcome(r, cap, atRoot), who, s, problems)
    ensures var r := RpmRules(ix, needs);
      NeedHolds(ix, r, cap, atRoot, s) || OutcomeReported(PlainOutcome(r, cap, atRoot), who, problems)
  {
    var r := RpmRules(ix, needs);
    var asked := Asked(r, cap, atRoot);
    var res := Resolve(ix, asked);
    RichIsStripped(cap);
    ResolveIsTrue(ix, asked);
    if res.Chosen? {
      if !Overridden(ix, asked) { ChosenMeets(ix, asked); }
    } else if res.Ambiguous? && !ReportedUndecided(problems, asked, who) {
      RefusedExactlyWhen(ix, asked);
      TrustyForRpm(ix, needs);
      CandidateIsThere(r, StripVersion(asked), res.candidates, s);
    }
  }

  /**
   * With clean overrides, keyed on expressions or bare names, no provided name
   * an expression and every package name provided only by itself, each
   * requirement of each package of the closure, and each at the root, holds in
   * the closure or is among the problems.
   */
  lemma NothingSilentlyDropped(ix: Index, needs: map<string, seq<string>>, cap: string, atRoot: bool, who: string,
                               seen: set<string>, problems: seq<Problem>)
    requires Reliable(ix)
    requires NeedFlat(RpmRules(ix, needs), cap)
    requires NeedAnswered(RpmRules(ix, needs), cap, atRoot, who, seen, problems)
    ensures var r := RpmRules(ix, needs);
      NeedHolds(ix, r, cap, atRoot, seen) || NeedReported(r, cap, atRoot, who, problems)
  {
    var r := RpmRules(ix, needs);
    if IsRichDep(StripVersion(cap)) {
      var node := r.read(r.strip(cap));
      if node.None? {
        assert OutcomeReported(Report(Unreadable(r.strip(cap))), who, problems);
      } else {
        TrustyForRpm(ix, needs);
        AnsweredHolds(r, node.value, who, seen, problems);
      }
    } else {
      PlainHolds(ix, needs, cap, atRoot, who, seen, problems);
      assert PlainOutcome(r, cap, atRoot) in MayNeed(r, cap, atRoot);
    }
  }

  /** A requirement the solver evaluates completely holds or is reported. */
  ghost predicate HoldsOrReported(ix: Index, r: Rules, cap: string, atRoot: bool, who: string, seen: set<string>,
                                  problems: seq<Problem>)
  {
    NeedFlat(r, cap) ==> NeedHolds(ix, r, cap, atRoot, seen) || NeedReported(r, cap, atRoot, who, problems)
  }

  /** Every requirement at the root, and every one of a package of the closure. */
  ghost predicate AllHoldOrReported(ix: Index, r: Rules, extra: seq<(string, string)>, seen: set<string>,
                                    problems: seq<Problem>)
  {
    && (forall i :: 0 <= i < |extra| ==> HoldsOrReported(ix, r, extra[i].0, true, extra[i].1, seen, problems))
    && (forall p, i :: p in seen && 0 <= i < |Needs(r, p)| ==>
          HoldsOrReported(ix, r, Needs(r, p)[i], false, p, seen, problems))
  }

  lemma NoneDropped(ix: Index, needs: map<string, seq<string>>, roots: seq<string>, extra: seq<(string, string)>,
                    seen: set<string>, problems: seq<Problem>)
    requires Reliable(ix)
    requires NothingDropped(RpmRules(ix, needs), roots, extra, seen, problems)
    ensures AllHoldOrReported(ix, RpmRules(ix, needs), extra, seen, problems)
  {
    var r := RpmRules(ix, needs);
    forall i | 0 <= i < |extra| ensures HoldsOrReported(ix, r, extra[i].0, true, extra[i].1, seen, problems) {
      if NeedFlat(r, extra[i].0) {
        NothingSilentlyDropped(ix, needs, extra[i].0, true, extra[i].1, seen, problems);
      }
    }
    forall p, i | p in seen && 0 <= i < |Needs(r, p)|
      ensures HoldsOrReported(ix, r, Needs(r, p)[i], false, p, seen, problems)
    {
      if NeedFlat(r, Needs(r, p)[i]) {
        NothingSilentlyDropped(ix, needs, Needs(r, p)[i], false, p, seen, problems);
      }
    }
  }

  /** What a solve gives. */
  ghost predicate Solved(ix: Index, needs: map<string, seq<string>>, roots: seq<string>, extra: seq<(string, string)>,
                         seen: set<string>, problems: seq<Problem>)
  {
    var r := RpmRules(ix, needs);
    && Ran(r, roots, extra, seen, problems)
    && (ReadableKeys(ix) && NoneRich(ix) && AllMonotone(r, extra, seen) ==> LeastClosed(r, roots, extra, seen))
    && (Reliable(ix) ==> AllHoldOrReported(ix, r, extra, seen, problems))
  }

  /** Resolve the roots' runtime requirements against the repositories. */
  method SolveRuntime(ix: Index, needs: map<string, seq<string>>, roots: seq<string>, extra: seq<(string, string)>)
    returns (seen: set<string>, problems: seq<Problem>)
    ensures Solved(ix, needs, roots, extra, seen, problems)
  {
    var r := RpmRules(ix, needs);
    seen, problems := Close(r, roots, extra);
    if ReadableKeys(ix) && NoneRich(ix) { ChoicesStandForRpm(ix, needs); }
    if Reliable(ix) { NoneDropped(ix, needs, roots, extra, seen, problems); }
  }
}
