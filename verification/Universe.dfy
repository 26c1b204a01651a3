/** `build_universe`: the maps a solve reads, and the builds the collapse discarded answering only what nothing else does. */
module Universe {
  import opened Options
  import opened TextOrder
  import opened RpmVersion
  import opened Packages
  import opened Collapse
  import opened Constrained

  // ── Capabilities ─────────────────────────────────────────────────────

  /** A package answers to its own name and to what it provides. */
  predicate Offers(p: Package, cap: string) {
    cap == p.name || (cap in p.provided && !IsPseudo(cap))
  }

  /** `caps.get(cap, [])` */
  function Listed(caps: map<string, seq<string>>, cap: string): seq<string> {
    if cap in caps then caps[cap] else []
  }

  ghost predicate NoneEmpty(caps: map<string, seq<string>>) {
    forall c :: c in caps ==> caps[c] != []
  }

  function Append(caps: map<string, seq<string>>, cap: string, key: string): map<string, seq<string>> {
    caps[cap := Listed(caps, cap) + [key]]
  }

  /** Enter everything one build offers, under the name it goes by. */
  method OfferAll(p: Package, key: string, caps: map<string, seq<string>>) returns (caps': map<string, seq<string>>)
    requires NoneEmpty(caps)
    ensures NoneEmpty(caps')
    ensures forall c, k :: k in Listed(caps', c) <==> k in Listed(caps, c) || (k == key && Offers(p, c))
  {
    caps' := caps;
    for i := 0 to |p.provided|
      invariant NoneEmpty(caps')
      invariant forall c, k ::
        k in Listed(caps', c) <==> k in Listed(caps, c) || (k == key && c in p.provided[..i] && !IsPseudo(c))
    {
      assert p.provided[..i + 1] == p.provided[..i] + [p.provided[i]];
      if !IsPseudo(p.provided[i]) { caps' := Append(caps', p.provided[i], key); }
    }
    assert p.provided[..|p.provided|] == p.provided;
    caps' := Append(caps', p.name, key);
  }

  /** What the winners provide and require. */
  method IndexNames(pkgs: seq<Package>, index: map<string, nat>)
    returns (caps: map<string, seq<string>>, needs: map<string, seq<string>>)
    requires forall n :: n in index ==> index[n] < |pkgs|
    ensures NoneEmpty(caps)
    ensures forall c, k :: k in Listed(caps, c) <==> k in index && Offers(pkgs[index[k]], c)
    ensures needs.Keys == index.Keys && forall k :: k in index ==> needs[k] == PlainNeeds(pkgs[index[k]])
  {
    caps, needs := map[], map[];
    assert forall c :: Listed(caps, c) == [];
    var rest := index.Keys;
    while rest != {}
      invariant rest <= index.Keys && NoneEmpty(caps)
      invariant forall c, k :: k in Listed(caps, c) <==> k in index && k !in rest && Offers(pkgs[index[k]], c)
      invariant needs.Keys == index.Keys - rest
      invariant forall k :: k in needs ==> needs[k] == PlainNeeds(pkgs[index[k]])
      decreases rest
    {
      var k :| k in rest;
      needs := needs[k := PlainNeeds(pkgs[index[k]])];
      caps := OfferAll(pkgs[index[k]], k, caps);
      rest := rest - {k};
    }
  }

  // ── At what versions ─────────────────────────────────────────────────

  /** `provide_evr.get(cap, {}).get(name, [])` */
  function StatedIn(m: map<string, map<string, seq<Evr>>>, cap: string, name: string): seq<Evr> {
    if cap in m && name in m[cap] then m[cap][name] else []
  }

  /** The versions a package states for a capability. */
  function StatedBy(entries: seq<(string, Evr)>, cap: string): seq<Evr> {
    if entries == [] || IsPseudo(cap) then []
    else
      var last := entries[|entries| - 1];
      StatedBy(entries[..|entries| - 1], cap) + if last.0 == cap then [last.1] else []
  }

  function StateOne(m: map<string, map<string, seq<Evr>>>, cap: string, key: string, evr: Evr)
    : map<string, map<string, seq<Evr>>>
  {
    m[cap := (if cap in m then m[cap] else map[])[key := StatedIn(m, cap, key) + [evr]]]
  }

  lemma StateOneMore(m: map<string, map<string, seq<Evr>>>, cap: string, key: string, evr: Evr)
    ensures forall c, k ::
      StatedIn(StateOne(m, cap, key, evr), c, k)
      == if c == cap && k == key then StatedIn(m, c, k) + [evr] else StatedIn(m, c, k)
  {
  }

  lemma StatedStep(entries: seq<(string, Evr)>, i: nat)
    requires i < |entries|
    ensures forall c ::
      StatedBy(entries[..i + 1], c)
      == StatedBy(entries[..i], c) + if c == entries[i].0 && !IsPseudo(entries[i].0) then [entries[i].1] else []
  {
    assert entries[..i + 1][..i] == entries[..i] && entries[..i + 1][i] == entries[i];
  }

  method StateAll(p: Package, key: string, m: map<string, map<string, seq<Evr>>>)
    returns (m': map<string, map<string, seq<Evr>>>)
    requires forall c :: StatedIn(m, c, key) == []
    ensures forall c, k :: StatedIn(m', c, k) == if k == key then StatedBy(p.provideEvr, c) else StatedIn(m, c, k)
  {
    m' := m;
    for i := 0 to |p.provideEvr|
      invariant forall c, k ::
        StatedIn(m', c, k) == if k == key then StatedBy(p.provideEvr[..i], c) else StatedIn(m, c, k)
    {
      var (cap, evr) := p.provideEvr[i];
      StatedStep(p.provideEvr, i);
      if !IsPseudo(cap) {
        StateOneMore(m', cap, key, evr);
        m' := StateOne(m', cap, key, evr);
      }
    }
    assert p.provideEvr[..|p.provideEvr|] == p.provideEvr;
  }

  /** The versions the winners state; the discarded builds state none. */
  method IndexVersions(pkgs: seq<Package>, index: map<string, nat>) returns (m: map<string, map<string, seq<Evr>>>)
    requires forall n :: n in index ==> index[n] < |pkgs|
    ensures forall c, k :: StatedIn(m, c, k) == if k in index then StatedBy(pkgs[index[k]].provideEvr, c) else []
  {
    m := map[];
    var rest := index.Keys;
    while rest != {}
      invariant rest <= index.Keys
      invariant forall c, k ::
        StatedIn(m, c, k) == if k in index && k !in rest then StatedBy(pkgs[index[k]].provideEvr, c) else []
      decreases rest
    {
      var k :| k in rest;
      m := StateAll(pkgs[index[k]], k, m);
      rest := rest - {k};
    }
  }

  // ── The builds the collapse discarded ────────────────────────────────

  /** `glibc-devel.i686` */
  function Qualified(p: Package): string {
    p.name + "." + p.arch
  }

  /** A build that lost its name to another architecture, and is foreign or from a fallback repository. */
  predicate Discarded(st: Setting, pkgs: seq<Package>, i: nat)
    requires i < |pkgs|
  {
    var w := Best(st, pkgs, pkgs[i].name);
    && w.Some? && pkgs[w.value].arch != pkgs[i].arch
    && (ArchRank(pkgs[i].arch, st.cpu) == 2 || (IsFallback(st, pkgs[i]) && w.value != i))
  }

  /** The newest discarded build of a qualified name, among the first `n`. */
  function BestDiscarded(st: Setting, pkgs: seq<Package>, key: string, n: nat): (r: Option<nat>)
    requires n <= |pkgs|
    ensures r.Some? ==> r.value < n && Qualified(pkgs[r.value]) == key && Discarded(st, pkgs, r.value)
  {
    if n == 0 then None
    else
      var b := BestDiscarded(st, pkgs, key, n - 1);
      if Discarded(st, pkgs, n - 1) && Qualified(pkgs[n - 1]) == key && (b.None? || Newer(pkgs[n - 1], pkgs[b.value]))
      then Some(n - 1) else b
  }

  lemma {:induction false} BestDiscardedIsNewest(st: Setting, pkgs: seq<Package>, key: string, n: nat, i: nat)
    requires i < n <= |pkgs| && Discarded(st, pkgs, i) && Qualified(pkgs[i]) == key
    ensures var b := BestDiscarded(st, pkgs, key, n); b.Some? && !Newer(pkgs[i], pkgs[b.value])
  {
    NewerOrder(pkgs[i], pkgs[i], pkgs[i]);
    if i < n - 1 {
      BestDiscardedIsNewest(st, pkgs, key, n - 1, i);
      var b := BestDiscarded(st, pkgs, key, n - 1).value;
      NewerOrder(pkgs[n - 1], pkgs[b], pkgs[i]);
      NewerOrder(pkgs[i], pkgs[b], pkgs[n - 1]);
    }
  }

  lemma WinnerOf(st: Setting, pkgs: seq<Package>, index: map<string, nat>, i: nat)
    requires i < |pkgs| && Lookup(index, pkgs[i].name) == Best(st, pkgs, pkgs[i].name)
    ensures pkgs[i].name in index && Best(st, pkgs, pkgs[i].name) == Some(index[pkgs[i].name])
  {
    BestIsBest(st, pkgs, pkgs[i].name);
  }

  method IndexDiscarded(st: Setting, pkgs: seq<Package>, index: map<string, nat>) returns (foreign: map<string, nat>)
    requires forall name :: Lookup(index, name) == Best(st, pkgs, name)
    ensures forall key :: Lookup(foreign, key) == BestDiscarded(st, pkgs, key, |pkgs|)
  {
    foreign := map[];
    for i := 0 to |pkgs|
      invariant forall key :: Lookup(foreign, key) == BestDiscarded(st, pkgs, key, i)
    {
      var pkg := pkgs[i];
      WinnerOf(st, pkgs, index, i);
      var w := index[pkg.name];
      if ArchRank(pkg.arch, st.cpu) != 2 && !(IsFallback(st, pkg) && w != i) { continue; }
      if pkgs[w].arch == pkg.arch { continue; }
      var key := Qualified(pkg);
      assert Lookup(foreign, key) == BestDiscarded(st, pkgs, key, i);
      if key !in foreign || Newer(pkg, pkgs[foreign[key]]) { foreign := foreign[key := i]; }
    }
  }

  /** What the discarded builds of one architecture offer. */
  function OfArch(byArch: map<string, map<string, seq<string>>>, arch: string): map<string, seq<string>> {
    if arch in byArch then byArch[arch] else map[]
  }

  /** Their capabilities, by architecture. */
  method OfferDiscarded(pkgs: seq<Package>, foreign: map<string, nat>)
    returns (byArch: map<string, map<string, seq<string>>>)
    requires forall k :: k in foreign ==> foreign[k] < |pkgs|
    ensures forall a :: a in byArch ==> NoneEmpty(byArch[a])
    ensures forall a, c, k ::
      k in Listed(OfArch(byArch, a), c) <==> k in foreign && pkgs[foreign[k]].arch == a && Offers(pkgs[foreign[k]], c)
  {
    byArch := map[];
    var rest := foreign.Keys;
    while rest != {}
      invariant rest <= foreign.Keys
      invariant forall a :: a in byArch ==> NoneEmpty(byArch[a])
      invariant forall a, c, k {:trigger k in Listed(OfArch(byArch, a), c)} ::
        k in Listed(OfArch(byArch, a), c)
        <==> k in foreign && k !in rest && pkgs[foreign[k]].arch == a && Offers(pkgs[foreign[k]], c)
      decreases rest
    {
      var k :| k in rest;
      var pkg := pkgs[foreign[k]];
      var caps := OfferAll(pkg, k, OfArch(byArch, pkg.arch));
      ghost var was := byArch;
      byArch := byArch[pkg.arch := caps];
      assert forall a :: OfArch(byArch, a) == if a == pkg.arch then caps else OfArch(was, a);
      rest := rest - {k};
    }
  }

  // ── Where a discarded build is the only possible answer ──────────────

  /** The first of some architectures whose discarded builds offer a capability. */
  function FirstArch(byArch: map<string, map<string, seq<string>>>, arches: seq<string>, cap: string): Option<string> {
    if arches == [] then None
    else
      var earlier, last := FirstArch(byArch, arches[..|arches| - 1], cap), arches[|arches| - 1];
      if earlier.Some? then earlier else if cap in OfArch(byArch, last) then Some(last) else None
  }

  /** Who answers to a capability: the collapsed names, or else the discarded builds of one architecture. */
  function Answer(caps: map<string, seq<string>>, byArch: map<string, map<string, seq<string>>>, arches: seq<string>,
                  cap: string): Option<seq<string>>
  {
    if cap in caps then Some(caps[cap])
    else
      var arch := FirstArch(byArch, arches, cap);
      if arch.Some? then Some(Sorted(Listed(OfArch(byArch, arch.value), cap))) else None
  }

  /** Fill the empty entries, architecture by architecture. */
  method FillEmpty(caps: map<string, seq<string>>, byArch: map<string, map<string, seq<string>>>)
    returns (caps': map<string, seq<string>>, ghost arches: seq<string>)
    requires forall a :: a in byArch ==> NoneEmpty(byArch[a])
    ensures Ascending(arches) && forall a :: a in arches <==> a in byArch
    ensures forall c :: Lookup(caps', c) == Answer(caps, byArch, arches, c)
  {
    caps' := caps;
    var sorted := SortSet(byArch.Keys);
    arches := sorted;
    for i := 0 to |sorted|
      invariant forall c :: Lookup(caps', c) == Answer(caps, byArch, sorted[..i], c)
    {
      var arch := sorted[i];
      assert sorted[..i + 1][..i] == sorted[..i] && sorted[..i + 1][i] == arch;
      assert arch in sorted;
      ghost var was := caps';
      caps' := FillFrom(caps', byArch[arch]);
      forall c ensures Lookup(caps', c) == Answer(caps, byArch, sorted[..i + 1], c) {
        assert Lookup(was, c) == Answer(caps, byArch, sorted[..i], c);
        assert byArch[arch] == OfArch(byArch, arch);
      }
    }
    assert sorted[..|sorted|] == sorted;
  }

  method FillFrom(caps: map<string, seq<string>>, offered: map<string, seq<string>>) returns (caps': map<string, seq<string>>)
    ensures forall c ::
      Lookup(caps', c) == if c in caps then Some(caps[c]) else if c in offered then Some(Sorted(offered[c])) else None
  {
    caps' := caps;
    var rest := offered.Keys;
    while rest != {}
      invariant rest <= offered.Keys
      invariant forall c ::
        Lookup(caps', c)
        == if c in caps then Some(caps[c]) else if c in offered && c !in rest then Some(Sorted(offered[c])) else None
      decreases rest
    {
      var c :| c in rest;
      assert Lookup(caps', c) == if c in caps then Some(caps[c]) else None;
      if c !in caps' { caps' := caps'[c := Sorted(offered[c])]; }
      rest := rest - {c};
    }
  }

  lemma {:induction false} FirstArchIsFirst(byArch: map<string, map<string, seq<string>>>, arches: seq<string>, cap: string)
    ensures var a := FirstArch(byArch, arches, cap);
      && (a.None? <==> forall b :: b in arches ==> cap !in OfArch(byArch, b))
      && (a.Some? ==> exists i :: 0 <= i < |arches| && arches[i] == a.value && cap in OfArch(byArch, a.value)
                                  && forall j :: 0 <= j < i ==> cap !in OfArch(byArch, arches[j]))
  {
    if arches != [] {
      var front := arches[..|arches| - 1];
      assert arches == front + [arches[|arches| - 1]];
      FirstArchIsFirst(byArch, front, cap);
      var a := FirstArch(byArch, front, cap);
      if a.Some? {
        var i :| 0 <= i < |front| && front[i] == a.value && cap in OfArch(byArch, a.value)
                 && forall j :: 0 <= j < i ==> cap !in OfArch(byArch, front[j]);
        assert arches[i] == a.value && forall j :: 0 <= j < i ==> arches[j] == front[j];
      } else {
        assert forall j :: 0 <= j < |front| ==> front[j] in front && arches[j] == front[j];
      }
    }
  }

  // ── The universe ─────────────────────────────────────────────────────

  datatype Universe = Universe(
    provided: map<string, seq<string>>,
    needs: map<string, seq<string>>,
    binaryIndex: map<string, nat>,
    foreignIndex: map<string, nat>,
    provideEvr: map<string, map<string, seq<Evr>>>)

  /** The build a name stands for: a winner, or a discarded build under its qualified name. */
  function Standing(st: Setting, pkgs: seq<Package>, key: string): Option<nat> {
    var b := Best(st, pkgs, key);
    if b.Some? then b else BestDiscarded(st, pkgs, key, |pkgs|)
  }

  /** The build whose requirements are kept under a name: where a plain name equals a qualified one, the discarded build's. */
  function Needing(st: Setting, pkgs: seq<Package>, key: string): Option<nat> {
    var d := BestDiscarded(st, pkgs, key, |pkgs|);
    if d.Some? then d else Best(st, pkgs, key)
  }

  ghost predicate CollapsedOffers(st: Setting, pkgs: seq<Package>, key: string, cap: string) {
    Best(st, pkgs, key).Some? && Offers(pkgs[Best(st, pkgs, key).value], cap)
  }

  ghost predicate DiscardedOffers(st: Setting, pkgs: seq<Package>, key: string, arch: string, cap: string) {
    var d := BestDiscarded(st, pkgs, key, |pkgs|);
    d.Some? && pkgs[d.value].arch == arch && Offers(pkgs[d.value], cap)
  }

  ghost predicate SomeCollapsed(st: Setting, pkgs: seq<Package>, cap: string) {
    exists k :: CollapsedOffers(st, pkgs, k, cap)
  }

  ghost predicate SomeDiscarded(st: Setting, pkgs: seq<Package>, arch: string, cap: string) {
    exists k :: DiscardedOffers(st, pkgs, k, arch, cap)
  }

  /** The first architecture, in order, whose discarded builds offer the capability. */
  ghost predicate LeastArch(st: Setting, pkgs: seq<Package>, arch: string, cap: string) {
    SomeDiscarded(st, pkgs, arch, cap)
    && forall b :: SomeDiscarded(st, pkgs, b, cap) ==> arch == b || Less(arch, b)
  }

  /** Who answers to a capability: the collapsed names if any does, else the discarded builds of one architecture. */
  ghost predicate Answers(st: Setting, pkgs: seq<Package>, u: Universe, cap: string) {
    if SomeCollapsed(st, pkgs, cap) then
      cap in u.provided && forall k :: k in u.provided[cap] <==> CollapsedOffers(st, pkgs, k, cap)
    else
      && (forall a :: LeastArch(st, pkgs, a, cap) ==>
            cap in u.provided && forall k :: k in u.provided[cap] <==> DiscardedOffers(st, pkgs, k, a, cap))
      && (cap in u.provided ==> exists a :: LeastArch(st, pkgs, a, cap))
  }

  ghost predicate AllAnswer(st: Setting, pkgs: seq<Package>, u: Universe) {
    && (forall c :: Answers(st, pkgs, u, c))
    && (forall c :: c in u.provided ==> u.provided[c] != [] && Ascending(u.provided[c]))
  }

  ghost predicate AllStand(st: Setting, pkgs: seq<Package>, u: Universe) {
    && (forall k :: Lookup(u.binaryIndex, k) == Standing(st, pkgs, k))
    && (forall k :: Lookup(u.foreignIndex, k) == BestDiscarded(st, pkgs, k, |pkgs|))
  }

  ghost predicate AllNeed(st: Setting, pkgs: seq<Package>, needs: map<string, seq<string>>) {
    forall k ::
      Lookup(needs, k)
      == if Needing(st, pkgs, k).Some? then Some(PlainNeeds(pkgs[Needing(st, pkgs, k).value])) else None
  }

  ghost predicate AllState(st: Setting, pkgs: seq<Package>, m: map<string, map<string, seq<Evr>>>) {
    forall c, k ::
      StatedIn(m, c, k)
      == if Best(st, pkgs, k).Some? then StatedBy(pkgs[Best(st, pkgs, k).value].provideEvr, c) else []
  }

  ghost predicate IsUniverse(st: Setting, pkgs: seq<Package>, u: Universe) {
    && AllAnswer(st, pkgs, u) && AllStand(st, pkgs, u) && AllNeed(st, pkgs, u.needs)
    && AllState(st, pkgs, u.provideEvr)
  }

  /** The capability maps, in terms of the builds they come from. */
  ghost predicate Collected(st: Setting, pkgs: seq<Package>, caps: map<string, seq<string>>,
                            byArch: map<string, map<string, seq<string>>>)
  {
    && NoneEmpty(caps) && (forall a :: a in byArch ==> NoneEmpty(byArch[a]))
    && (forall c, k :: k in Listed(caps, c) <==> CollapsedOffers(st, pkgs, k, c))
    && (forall a, c, k :: k in Listed(OfArch(byArch, a), c) <==> DiscardedOffers(st, pkgs, k, a, c))
  }

  /** Pick the winners, and gather what they and the discarded builds offer and require. */
  method Collect(st: Setting, pkgs: seq<Package>)
    returns (index: map<string, nat>, foreign: map<string, nat>, needs: map<string, seq<string>>,
             caps: map<string, seq<string>>, byArch: map<string, map<string, seq<string>>>)
    ensures forall n :: Lookup(index, n) == Best(st, pkgs, n)
    ensures forall k :: Lookup(foreign, k) == BestDiscarded(st, pkgs, k, |pkgs|)
    ensures Collected(st, pkgs, caps, byArch)
    ensures AllNeed(st, pkgs, needs)
  {
    index := CollapseNames(st, pkgs);
    forall n | n in index ensures index[n] < |pkgs| { assert Lookup(index, n) == Best(st, pkgs, n); }
    caps, needs := IndexNames(pkgs, index);
    foreign := IndexDiscarded(st, pkgs, index);
    forall k | k in foreign ensures foreign[k] < |pkgs| {
      assert Lookup(foreign, k) == BestDiscarded(st, pkgs, k, |pkgs|);
    }
    byArch := OfferDiscarded(pkgs, foreign);
    CapsCollected(st, pkgs, index, caps);
    DiscardedCollected(st, pkgs, foreign, byArch);
    var plain := needs;
    needs := plain + map k | k in foreign :: PlainNeeds(pkgs[foreign[k]]);
    NeedsCollected(st, pkgs, index, foreign, plain, needs);
  }

  lemma NeedsCollected(st: Setting, pkgs: seq<Package>, index: map<string, nat>, foreign: map<string, nat>,
                       plain: map<string, seq<string>>, needs: map<string, seq<string>>)
    requires forall n :: Lookup(index, n) == Best(st, pkgs, n)
    requires forall k :: Lookup(foreign, k) == BestDiscarded(st, pkgs, k, |pkgs|)
    requires forall n :: n in index ==> index[n] < |pkgs|
    requires forall k :: k in foreign ==> foreign[k] < |pkgs|
    requires plain.Keys == index.Keys && forall k :: k in index ==> plain[k] == PlainNeeds(pkgs[index[k]])
    requires needs == plain + map k | k in foreign :: PlainNeeds(pkgs[foreign[k]])
    ensures AllNeed(st, pkgs, needs)
  {
    forall k
      ensures Lookup(needs, k)
           == if Needing(st, pkgs, k).Some? then Some(PlainNeeds(pkgs[Needing(st, pkgs, k).value])) else None
    {
      NeedingIs(st, pkgs, index, foreign, k);
      assert k in plain <==> k in index;
    }
  }

  lemma CapsCollected(st: Setting, pkgs: seq<Package>, index: map<string, nat>, caps: map<string, seq<string>>)
    requires forall n :: Lookup(index, n) == Best(st, pkgs, n)
    requires forall n :: n in index ==> index[n] < |pkgs|
    requires forall c, k :: k in Listed(caps, c) <==> k in index && Offers(pkgs[index[k]], c)
    ensures forall c, k :: k in Listed(caps, c) <==> CollapsedOffers(st, pkgs, k, c)
  {
    forall c, k ensures k in Listed(caps, c) <==> CollapsedOffers(st, pkgs, k, c) {
      assert Lookup(index, k) == Best(st, pkgs, k);
    }
  }

  lemma DiscardedCollected(st: Setting, pkgs: seq<Package>, foreign: map<string, nat>,
                           byArch: map<string, map<string, seq<string>>>)
    requires forall k :: Lookup(foreign, k) == BestDiscarded(st, pkgs, k, |pkgs|)
    requires forall k :: k in foreign ==> foreign[k] < |pkgs|
    requires forall a, c, k ::
      k in Listed(OfArch(byArch, a), c) <==> k in foreign && pkgs[foreign[k]].arch == a && Offers(pkgs[foreign[k]], c)
    ensures forall a, c, k :: k in Listed(OfArch(byArch, a), c) <==> DiscardedOffers(st, pkgs, k, a, c)
  {
    forall a, c, k ensures k in Listed(OfArch(byArch, a), c) <==> DiscardedOffers(st, pkgs, k, a, c) {
      assert Lookup(foreign, k) == BestDiscarded(st, pkgs, k, |pkgs|);
    }
  }

  lemma NeedingIs(st: Setting, pkgs: seq<Package>, index: map<string, nat>, foreign: map<string, nat>, k: string)
    requires Lookup(index, k) == Best(st, pkgs, k) && Lookup(foreign, k) == BestDiscarded(st, pkgs, k, |pkgs|)
    ensures Lookup(foreign + index, k) == Standing(st, pkgs, k)
    ensures Needing(st, pkgs, k) == if k in foreign then Some(foreign[k]) else Lookup(index, k)
  {
  }

  lemma AnswersAre(st: Setting, pkgs: seq<Package>, caps: map<string, seq<string>>,
                   byArch: map<string, map<string, seq<string>>>, arches: seq<string>, u: Universe, c: string)
    requires Collected(st, pkgs, caps, byArch)
    requires Ascending(arches) && forall a :: a in arches <==> a in byArch
    requires var answer := Answer(caps, byArch, arches, c);
      Lookup(u.provided, c) == if answer.Some? then Some(Sorted(answer.value)) else None
    ensures Answers(st, pkgs, u, c)
    ensures c in u.provided ==> u.provided[c] != [] && Ascending(u.provided[c])
  {
    var answer := Answer(caps, byArch, arches, c);
    if answer.Some? { SortedAscending(answer.value); }
    if c in caps {
      assert caps[c][0] in Listed(caps, c);
      assert caps[c][0] in Sorted(caps[c]);
    } else {
      assert !SomeCollapsed(st, pkgs, c) by { assert forall k :: k !in Listed(caps, c); }
      DiscardedAnswer(st, pkgs, byArch, arches, c);
      FirstArchIsFirst(byArch, arches, c);
      var f := FirstArch(byArch, arches, c);
      if f.Some? {
        var names := Listed(OfArch(byArch, f.value), c);
        assert names[0] in Sorted(names);
      }
    }
  }

  lemma DiscardedAnswer(st: Setting, pkgs: seq<Package>, byArch: map<string, map<string, seq<string>>>,
                        arches: seq<string>, c: string)
    requires forall a :: a in byArch ==> NoneEmpty(byArch[a])
    requires forall a, k :: k in Listed(OfArch(byArch, a), c) <==> DiscardedOffers(st, pkgs, k, a, c)
    requires Ascending(arches) && forall a :: a in arches <==> a in byArch
    ensures var f := FirstArch(byArch, arches, c);
      && (f.Some? ==> LeastArch(st, pkgs, f.value, c) && forall a :: LeastArch(st, pkgs, a, c) ==> a == f.value)
      && (f.None? ==> forall a :: !SomeDiscarded(st, pkgs, a, c))
  {
    FirstArchIsFirst(byArch, arches, c);
    var f := FirstArch(byArch, arches, c);
    forall a ensures SomeDiscarded(st, pkgs, a, c) <==> c in OfArch(byArch, a) {
      if c in OfArch(byArch, a) { assert OfArch(byArch, a)[c][0] in Listed(OfArch(byArch, a), c); }
    }
    if f.Some? {
      var i :| 0 <= i < |arches| && arches[i] == f.value && forall j :: 0 <= j < i ==> c !in OfArch(byArch, arches[j]);
      forall b | SomeDiscarded(st, pkgs, b, c) ensures f.value == b || Less(f.value, b) {
        assert b in arches;
        var j :| 0 <= j < |arches| && arches[j] == b;
      }
      forall a | LeastArch(st, pkgs, a, c) ensures a == f.value {
        if a != f.value {
          LessTransitive(a, f.value, a);
          LessIrreflexive(a);
        }
      }
    }
  }

  lemma AnswersCollected(st: Setting, pkgs: seq<Package>, caps: map<string, seq<string>>,
                         byArch: map<string, map<string, seq<string>>>, arches: seq<string>,
                         filled: map<string, seq<string>>, u: Universe)
    requires Collected(st, pkgs, caps, byArch)
    requires Ascending(arches) && forall a :: a in arches <==> a in byArch
    requires forall c :: Lookup(filled, c) == Answer(caps, byArch, arches, c)
    requires u.provided == map c | c in filled :: Sorted(filled[c])
    ensures AllAnswer(st, pkgs, u)
  {
    forall c
      ensures Answers(st, pkgs, u, c)
      ensures c in u.provided ==> u.provided[c] != [] && Ascending(u.provided[c])
    {
      assert Lookup(filled, c) == Answer(caps, byArch, arches, c);
      AnswersAre(st, pkgs, caps, byArch, arches, u, c);
    }
  }

  method VersionsOf(ghost st: Setting, pkgs: seq<Package>, index: map<string, nat>)
    returns (m: map<string, map<string, seq<Evr>>>)
    requires forall n :: Lookup(index, n) == Best(st, pkgs, n)
    ensures AllState(st, pkgs, m)
  {
    forall n | n in index ensures index[n] < |pkgs| { assert Lookup(index, n) == Best(st, pkgs, n); }
    m := IndexVersions(pkgs, index);
    forall c, k
      ensures StatedIn(m, c, k)
           == if Best(st, pkgs, k).Some? then StatedBy(pkgs[Best(st, pkgs, k).value].provideEvr, c) else []
    {
      assert Lookup(index, k) == Best(st, pkgs, k);
    }
  }

  /** Index the packages into the maps a solve reads. */
  method BuildUniverse(st: Setting, pkgs: seq<Package>) returns (u: Universe)
    ensures IsUniverse(st, pkgs, u)
  {
    var index, foreign, needs, caps, byArch := Collect(st, pkgs);
    var filled, arches := FillEmpty(caps, byArch);
    var versions := VersionsOf(st, pkgs, index);
    u := Universe(map c | c in filled :: Sorted(filled[c]), needs, foreign + index, foreign, versions);
    AnswersCollected(st, pkgs, caps, byArch, arches, filled, u);
    forall k ensures Lookup(u.binaryIndex, k) == Standing(st, pkgs, k) {
      NeedingIs(st, pkgs, index, foreign, k);
    }
  }

  // ── What a universe promises ─────────────────────────────────────────

  /** Every provider listed can be looked up: it has a build and its requirements. */
  lemma ProvidersAreIndexed(st: Setting, pkgs: seq<Package>, u: Universe, cap: string, k: string)
    requires IsUniverse(st, pkgs, u) && cap in u.provided && k in u.provided[cap]
    ensures k in u.binaryIndex && u.binaryIndex[k] < |pkgs| && k in u.needs
  {
    assert Answers(st, pkgs, u, cap);
    if !SomeCollapsed(st, pkgs, cap) {
      var a :| LeastArch(st, pkgs, a, cap);
      assert DiscardedOffers(st, pkgs, k, a, cap);
    }
    assert Lookup(u.binaryIndex, k) == Standing(st, pkgs, k);
    assert Lookup(u.needs, k).Some?;
  }

  /** A discarded build answers only where no winner does, and then only builds of one architecture answer. */
  lemma DiscardedFillEmptySlots(st: Setting, pkgs: seq<Package>, u: Universe, cap: string, k: string)
    requires IsUniverse(st, pkgs, u) && cap in u.provided && k in u.provided[cap]
    requires !CollapsedOffers(st, pkgs, k, cap)
    ensures !SomeCollapsed(st, pkgs, cap)
    ensures exists a :: LeastArch(st, pkgs, a, cap) && forall j :: j in u.provided[cap] ==> DiscardedOffers(st, pkgs, j, a, cap)
  {
    assert Answers(st, pkgs, u, cap);
  }

  /** What the winners answer, the discarded builds neither add to nor take from. */
  lemma CollapsedAnswersStand(st: Setting, pkgs: seq<Package>, u: Universe, cap: string, k: string)
    requires IsUniverse(st, pkgs, u) && CollapsedOffers(st, pkgs, k, cap)
    ensures cap in u.provided && k in u.provided[cap]
    ensures forall j :: j in u.provided[cap] ==> CollapsedOffers(st, pkgs, j, cap)
  {
    assert Answers(st, pkgs, u, cap);
    assert SomeCollapsed(st, pkgs, cap);
  }

  /** A qualified name never stands for the very build its plain name stands for. */
  lemma QualifiedIsAnother(st: Setting, pkgs: seq<Package>, u: Universe, k: string)
    requires IsUniverse(st, pkgs, u) && k in u.foreignIndex
    ensures u.foreignIndex[k] < |pkgs|
    ensures var p := pkgs[u.foreignIndex[k]];
      && k == Qualified(p) && p.name in u.binaryIndex && u.binaryIndex[p.name] < |pkgs|
      && pkgs[u.binaryIndex[p.name]].name == p.name && pkgs[u.binaryIndex[p.name]].arch != p.arch
  {
    assert Lookup(u.foreignIndex, k) == BestDiscarded(st, pkgs, k, |pkgs|);
    var p := pkgs[u.foreignIndex[k]];
    assert Lookup(u.binaryIndex, p.name) == Standing(st, pkgs, p.name);
  }

  /** A name with a compose build stands for a compose build, the best of them. */
  lemma ComposeNamesStand(st: Setting, pkgs: seq<Package>, u: Universe, p: Package)
    requires IsUniverse(st, pkgs, u) && p in pkgs && !IsFallback(st, p)
    ensures p.name in u.binaryIndex && u.binaryIndex[p.name] < |pkgs|
    ensures var w := pkgs[u.binaryIndex[p.name]]; w.name == p.name && !IsFallback(st, w) && !Better(st, p, w)
  {
    ComposeKeepsName(st, pkgs, p);
    BestIsBest(st, pkgs, p.name);
    assert Lookup(u.binaryIndex, p.name) == Standing(st, pkgs, p.name);
  }

  /** The first discarded build under a qualified name that none of them is newer than. */
  ghost predicate Displaces(st: Setting, pkgs: seq<Package>, k: string, i: int) {
    && 0 <= i < |pkgs| && Discarded(st, pkgs, i) && Qualified(pkgs[i]) == k
    && (forall j :: 0 <= j < |pkgs| && Discarded(st, pkgs, j) && Qualified(pkgs[j]) == k ==> !Newer(pkgs[j], pkgs[i]))
    && (forall j :: 0 <= j < i && Discarded(st, pkgs, j) && Qualified(pkgs[j]) == k ==> Newer(pkgs[i], pkgs[j]))
  }

  lemma {:induction false} BestDiscardedIsFirst(st: Setting, pkgs: seq<Package>, k: string, n: nat, j: nat)
    requires n <= |pkgs| && BestDiscarded(st, pkgs, k, n).Some? && j < BestDiscarded(st, pkgs, k, n).value
    requires Discarded(st, pkgs, j) && Qualified(pkgs[j]) == k
    ensures Newer(pkgs[BestDiscarded(st, pkgs, k, n).value], pkgs[j])
  {
    var b := BestDiscarded(st, pkgs, k, n).value;
    if b == n - 1 {
      BestDiscardedIsNewest(st, pkgs, k, n - 1, j);
      var c := BestDiscarded(st, pkgs, k, n - 1).value;
      NewerOrder(pkgs[b], pkgs[j], pkgs[c]);
    } else {
      BestDiscardedIsFirst(st, pkgs, k, n - 1, j);
    }
  }

  lemma DisplacesIff(st: Setting, pkgs: seq<Package>, k: string, i: int)
    ensures Displaces(st, pkgs, k, i) <==> i >= 0 && BestDiscarded(st, pkgs, k, |pkgs|) == Some(i)
  {
    var b := BestDiscarded(st, pkgs, k, |pkgs|);
    if b.Some? {
      forall j | 0 <= j < |pkgs| && Discarded(st, pkgs, j) && Qualified(pkgs[j]) == k ensures !Newer(pkgs[j], pkgs[b.value]) {
        BestDiscardedIsNewest(st, pkgs, k, |pkgs|, j);
      }
      forall j | 0 <= j < b.value && Discarded(st, pkgs, j) && Qualified(pkgs[j]) == k ensures Newer(pkgs[b.value], pkgs[j]) {
        BestDiscardedIsFirst(st, pkgs, k, |pkgs|, j);
      }
    }
    if Displaces(st, pkgs, k, i) { BestDiscardedIsNewest(st, pkgs, k, |pkgs|, i); }
  }

  /** A package has the name, and a discarded build has it for its qualified name. */
  ghost predicate Clashes(st: Setting, pkgs: seq<Package>, k: string, i: int) {
    (exists p :: p in pkgs && p.name == k) && Displaces(st, pkgs, k, i)
  }

  /**
   * The requirements kept under a name are those of the build the name stands
   * for, unless a package has a discarded build's qualified name for its plain
   * one and the two builds require different things: then the build is the
   * plain one and the requirements are the discarded one's.
   */
  lemma NeedsAreTheBuilds(st: Setting, pkgs: seq<Package>, u: Universe, k: string)
    requires IsUniverse(st, pkgs, u) && k in u.binaryIndex
    ensures k in u.needs && u.binaryIndex[k] < |pkgs|
    ensures u.needs[k] == PlainNeeds(pkgs[u.binaryIndex[k]])
      <==> forall i :: Clashes(st, pkgs, k, i) ==> PlainNeeds(pkgs[i]) == PlainNeeds(pkgs[u.binaryIndex[k]])
    ensures forall i :: Clashes(st, pkgs, k, i) ==>
      Best(st, pkgs, k) == Some(u.binaryIndex[k]) && u.needs[k] == PlainNeeds(pkgs[i])
  {
    var b, d := Best(st, pkgs, k), BestDiscarded(st, pkgs, k, |pkgs|);
    assert Lookup(u.binaryIndex, k) == Standing(st, pkgs, k);
    assert Lookup(u.needs, k) == Some(PlainNeeds(pkgs[Needing(st, pkgs, k).value]));
    ClashesIff(st, pkgs, k);
    if b.Some? && d.Some? { assert Clashes(st, pkgs, k, d.value); }
  }

  lemma ClashesIff(st: Setting, pkgs: seq<Package>, k: string)
    ensures forall i ::
      Clashes(st, pkgs, k, i) <==> i >= 0 && Best(st, pkgs, k).Some? && BestDiscarded(st, pkgs, k, |pkgs|) == Some(i)
  {
    BestIsBest(st, pkgs, k);
    var b := Best(st, pkgs, k);
    if b.Some? { assert pkgs[b.value] in pkgs; }
    forall i ensures Displaces(st, pkgs, k, i) <==> i >= 0 && BestDiscarded(st, pkgs, k, |pkgs|) == Some(i) {
      DisplacesIff(st, pkgs, k, i);
    }
  }

  function Bare(name: string, arch: string, needs: seq<string>): Package {
    Package(name, arch, "", Evr(None, None, None), [], [], needs, [], None)
  }

  /** `a` for two architectures and a package called `a.y`: it is listed with what the other build of `a` requires. */
  lemma QualifiedNameTakesNeeds(st: Setting, pkgs: seq<Package>, u: Universe)
    requires st == Setting("x", {}) && pkgs == [Bare("a", "x", []), Bare("a", "y", ["m"]), Bare("a.y", "x", ["n"])]
    requires IsUniverse(st, pkgs, u)
    ensures "a.y" in u.binaryIndex && u.binaryIndex["a.y"] == 2 && "a.y" in u.needs
    ensures u.needs["a.y"] != PlainNeeds(pkgs[2])
  {
    var k := "a.y";
    assert pkgs[..3] == pkgs && pkgs[..2][..1] == pkgs[..1] && pkgs[..1][..0] == [];
    assert |pkgs[0].name| == 1 && |pkgs[1].name| == 1 && |k| == 3;
    assert Best(st, pkgs, k) == Some(2);
    assert Best(st, pkgs[..2], "a") == Some(0);
    assert Best(st, pkgs, "a") == Some(0);
    assert Discarded(st, pkgs, 1) && Qualified(pkgs[1]) == k;
    assert !Discarded(st, pkgs, 0) && !Discarded(st, pkgs, 2);
    assert BestDiscarded(st, pkgs, k, 1) == None && BestDiscarded(st, pkgs, k, 2) == Some(1);
    assert BestDiscarded(st, pkgs, k, 3) == Some(1);
    assert Lookup(u.binaryIndex, k) == Standing(st, pkgs, k);
    assert Lookup(u.needs, k) == Some(PlainNeeds(pkgs[1]));
    OneNeed(pkgs[1], "m");
    OneNeed(pkgs[2], "n");
  }

  lemma OneNeed(p: Package, c: string)
    requires p.needs == [c] && p.ranges == [] && |c| == 1
    ensures PlainNeeds(p) == [c]
  {
    assert ConstrainedNeeds(p) == [c];
    assert Asked([c]) == [c] + Asked([]);
  }
}
