/** The merge as the solver runs it: dictionaries filled group by group. */
module MergeRun {
  import opened Options
  import opened RpmVersion
  import opened Packages
  import opened Merge

  /** `candidates.get(key, [])` */
  function Held(m: map<Slot, seq<Build>>, k: Slot): seq<Build> {
    if k in m then m[k] else []
  }

  /** The best build of each slot in one repository. */
  method BestBuilds(packages: seq<Package>) returns (best: map<Slot, Package>)
    ensures forall k :: Lookup(best, k) == GroupBest(packages, k)
  {
    best := map[];
    for i := 0 to |packages|
      invariant forall k :: Lookup(best, k) == GroupBest(packages[..i], k)
    {
      var pkg := packages[i];
      var k := SlotOf(pkg);
      assert packages[..i + 1][..i] == packages[..i] && packages[..i + 1][i] == pkg;
      if k !in best || Newer(pkg, best[k]) { best := best[k := pkg]; }
    }
    assert packages[..|packages|] == packages;
  }

  /** What the three dictionaries say of a slot once some groups have been folded in. */
  ghost predicate At(groups: seq<seq<Package>>, k: Slot, index: map<Slot, Build>, origin: map<Slot, Build>,
                     candidates: map<Slot, seq<Build>>)
  {
    && Lookup(index, k) == Winner(groups, k)
    && Lookup(origin, k) == Origin(groups, k)
    && Held(candidates, k) == Contenders(groups, k)
  }

  /** One more group, slot by slot. */
  lemma OneMoreGroup(groups: seq<seq<Package>>, ps: seq<Package>, k: Slot)
    ensures var w, best := Winner(groups, k), GroupBest(ps, k);
      && Winner(groups + [ps], k)
         == (if best.Some? && (w.None? || Newer(best.value, w.value.pkg)) then Some(Build(|groups|, best.value)) else w)
      && Origin(groups + [ps], k)
         == (if Origin(groups, k).None? && best.Some? then Some(Build(|groups|, best.value)) else Origin(groups, k))
      && Contenders(groups + [ps], k)
         == Contenders(groups, k) + (if best.Some? then [Build(|groups|, best.value)] else [])
  {
    assert (groups + [ps])[..|groups|] == groups;
  }

  /** The dictionaries after one build is entered. */
  ghost predicate Entered(k: Slot, build: Build,
                          index: map<Slot, Build>, origin: map<Slot, Build>, candidates: map<Slot, seq<Build>>,
                          index': map<Slot, Build>, origin': map<Slot, Build>, candidates': map<Slot, seq<Build>>)
  {
    && Lookup(index', k) == Some(if k !in index || Newer(build.pkg, index[k].pkg) then build else index[k])
    && Lookup(origin', k) == (if k !in index then Some(build) else Lookup(origin, k))
    && Held(candidates', k) == Held(candidates, k) + [build]
    && (forall j :: j != k ==> Lookup(index', j) == Lookup(index, j))
    && (forall j :: j != k ==> Lookup(origin', j) == Lookup(origin, j))
    && (forall j :: j != k ==> Held(candidates', j) == Held(candidates, j))
  }

  /** Entering a group's best build of a slot brings that slot up to date, and leaves the others as they were. */
  lemma EnteredAt(groups: seq<seq<Package>>, ps: seq<Package>, k: Slot, pkg: Package,
                  index: map<Slot, Build>, origin: map<Slot, Build>, candidates: map<Slot, seq<Build>>,
                  index': map<Slot, Build>, origin': map<Slot, Build>, candidates': map<Slot, seq<Build>>)
    requires Entered(k, Build(|groups|, pkg), index, origin, candidates, index', origin', candidates')
    requires GroupBest(ps, k) == Some(pkg) && At(groups, k, index, origin, candidates)
    ensures At(groups + [ps], k, index', origin', candidates')
    ensures forall gs, j :: j != k && At(gs, j, index, origin, candidates) ==> At(gs, j, index', origin', candidates')
  {
    OneMoreGroup(groups, ps, k);
    OriginIsFirst(groups, k);
  }

  /** Enter one build: it is a candidate, and takes the slot if it is empty or held by an older build. */
  method EnterBuild(k: Slot, build: Build, index: map<Slot, Build>, origin: map<Slot, Build>,
                    candidates: map<Slot, seq<Build>>)
    returns (index': map<Slot, Build>, origin': map<Slot, Build>, candidates': map<Slot, seq<Build>>)
    ensures Entered(k, build, index, origin, candidates, index', origin', candidates')
  {
    index', origin' := index, origin;
    candidates' := candidates[k := Held(candidates, k) + [build]];
    if k !in index {
      index', origin' := index[k := build], origin[k := build];
    } else if Newer(build.pkg, index[k].pkg) {
      index' := index[k := build];
    }
  }

  /** Enter the best builds of one more group. */
  method FoldGroup(ghost groups: seq<seq<Package>>, ps: seq<Package>, g: nat, index: map<Slot, Build>,
                   origin: map<Slot, Build>, candidates: map<Slot, seq<Build>>)
    returns (index': map<Slot, Build>, origin': map<Slot, Build>, candidates': map<Slot, seq<Build>>)
    requires g == |groups| && forall k :: At(groups, k, index, origin, candidates)
    ensures forall k :: At(groups + [ps], k, index', origin', candidates')
  {
    var best := BestBuilds(ps);
    index', origin', candidates' := index, origin, candidates;
    var rest := best.Keys;
    forall k | k !in rest ensures At(groups + [ps], k, index, origin, candidates) {
      OneMoreGroup(groups, ps, k);
      assert Lookup(best, k) == GroupBest(ps, k) && At(groups, k, index, origin, candidates);
    }
    ghost var more := groups + [ps];
    while rest != {}
      invariant rest <= best.Keys
      invariant forall k :: k in rest ==> At(groups, k, index', origin', candidates')
      invariant forall k :: k !in rest ==> At(more, k, index', origin', candidates')
      decreases rest
    {
      var k :| k in rest;
      assert Lookup(best, k) == GroupBest(ps, k);
      ghost var i0, o0, c0 := index', origin', candidates';
      index', origin', candidates' := EnterBuild(k, Build(g, best[k]), index', origin', candidates');
      EnteredAt(groups, ps, k, best[k], i0, o0, c0, index', origin', candidates');
      rest := rest - {k};
    }
  }

  // ── What is returned ─────────────────────────────────────────────────

  datatype Replacement = Replacement(slot: Slot, from: Build, to: Build)

  datatype Merged = Merged(
    packages: seq<Package>,
    replacements: seq<Replacement>,
    superseded: map<Slot, map<string, Build>>)

  /** The contenders that lost, by the text of their version; a later one takes the text of an earlier one. */
  function Shelf(contenders: seq<Build>, winner: Build): map<string, Build> {
    if contenders == [] then map[]
    else
      var front, last := Shelf(contenders[..|contenders| - 1], winner), contenders[|contenders| - 1];
      if last.group == winner.group then front else front[EvrText(last.pkg.evr) := last]
  }

  lemma {:induction false} ShelfHoldsLosers(contenders: seq<Build>, winner: Build)
    ensures forall t :: t in Shelf(contenders, winner) ==>
      var b := Shelf(contenders, winner)[t];
      b in contenders && b.group != winner.group && EvrText(b.pkg.evr) == t
    ensures forall b :: b in contenders && b.group != winner.group ==> EvrText(b.pkg.evr) in Shelf(contenders, winner)
  {
    if contenders != [] {
      assert contenders == contenders[..|contenders| - 1] + [contenders[|contenders| - 1]];
      ShelfHoldsLosers(contenders[..|contenders| - 1], winner);
    }
  }

  method Shelve(contenders: seq<Build>, winner: Build) returns (losers: map<string, Build>)
    ensures losers == Shelf(contenders, winner)
  {
    losers := map[];
    for i := 0 to |contenders|
      invariant losers == Shelf(contenders[..i], winner)
    {
      assert contenders[..i + 1][..i] == contenders[..i] && contenders[..i + 1][i] == contenders[i];
      if contenders[i].group != winner.group {
        losers := losers[EvrText(contenders[i].pkg.evr) := contenders[i]];
      }
    }
    assert contenders[..|contenders|] == contenders;
  }

  /** The packages are the winners in order of their slots, one a slot. */
  ghost predicate PackagesAre(groups: seq<seq<Package>>, packages: seq<Package>) {
    && (forall i, j :: 0 <= i < j < |packages| ==> SlotLess(SlotOf(packages[i]), SlotOf(packages[j])))
    && (forall p :: p in packages ==> Winner(groups, SlotOf(p)).Some? && Winner(groups, SlotOf(p)).value.pkg == p)
    && (forall k :: Winner(groups, k).Some? ==> Winner(groups, k).value.pkg in packages)
  }

  ghost predicate ReplacementsAre(groups: seq<seq<Package>>, rs: seq<Replacement>) {
    && (forall i, j :: 0 <= i < j < |rs| ==> SlotLess(rs[i].slot, rs[j].slot))
    && (forall r :: r in rs ==>
          && Replaced(groups, r.slot) && Origin(groups, r.slot) == Some(r.from) && Winner(groups, r.slot) == Some(r.to))
    && (forall k :: Replaced(groups, k) ==> Replacement(k, Origin(groups, k).value, Winner(groups, k).value) in rs)
  }

  /** `superseded.get(key, {})` */
  function Shelved(superseded: map<Slot, map<string, Build>>, k: Slot): map<string, Build> {
    if k in superseded then superseded[k] else map[]
  }

  ghost predicate SupersededAre(groups: seq<seq<Package>>, superseded: map<Slot, map<string, Build>>) {
    && (forall k :: Winner(groups, k).Some? ==>
          Shelved(superseded, k) == Shelf(Contenders(groups, k), Winner(groups, k).value))
    && (forall k :: k in superseded ==> superseded[k] != map[] && Winner(groups, k).Some?)
  }

  ghost predicate IsMerge(groups: seq<seq<Package>>, m: Merged) {
    && PackagesAre(groups, m.packages)
    && ReplacementsAre(groups, m.replacements)
    && SupersededAre(groups, m.superseded)
  }

  /** The winners, in order. */
  method ListWinners(ghost groups: seq<seq<Package>>, index: map<Slot, Build>, keys: seq<Slot>) returns (packages: seq<Package>)
    requires SlotsAscend(keys) && forall k :: k in keys <==> k in index
    requires forall k :: Lookup(index, k) == Winner(groups, k)
    ensures PackagesAre(groups, packages)
  {
    packages := [];
    for i := 0 to |keys|
      invariant |packages| == i
      invariant forall j :: 0 <= j < i ==> Winner(groups, keys[j]).Some? && packages[j] == Winner(groups, keys[j]).value.pkg
    {
      assert keys[i] in keys && Lookup(index, keys[i]) == Winner(groups, keys[i]);
      packages := packages + [index[keys[i]].pkg];
    }
    forall j | 0 <= j < |keys| ensures SlotOf(packages[j]) == keys[j] {
      WinnerIsNewest(groups, keys[j], packages[j]);
    }
    forall k | Winner(groups, k).Some? ensures Winner(groups, k).value.pkg in packages {
      assert Lookup(index, k) == Winner(groups, k);
      var j :| 0 <= j < |keys| && keys[j] == k;
      assert packages[j] in packages;
    }
  }

  function ReplacementsOf(groups: seq<seq<Package>>, keys: seq<Slot>): seq<Replacement> {
    if keys == [] then []
    else
      var k := keys[|keys| - 1];
      ReplacementsOf(groups, keys[..|keys| - 1])
      + if Replaced(groups, k) then [Replacement(k, Origin(groups, k).value, Winner(groups, k).value)] else []
  }

  lemma {:induction false} ReplacementsOfExactly(groups: seq<seq<Package>>, keys: seq<Slot>)
    requires SlotsAscend(keys)
    ensures var rs := ReplacementsOf(groups, keys);
      && (forall r :: r in rs <==>
            && r.slot in keys && Replaced(groups, r.slot)
            && Origin(groups, r.slot) == Some(r.from) && Winner(groups, r.slot) == Some(r.to))
      && (forall i, j :: 0 <= i < j < |rs| ==> SlotLess(rs[i].slot, rs[j].slot))
  {
    if keys != [] {
      var front, k := keys[..|keys| - 1], keys[|keys| - 1];
      assert keys == front + [k];
      ReplacementsOfExactly(groups, front);
      forall r | r in ReplacementsOf(groups, front) ensures SlotLess(r.slot, k) {
        var i :| 0 <= i < |front| && front[i] == r.slot;
        assert keys[i] == r.slot;
      }
    }
  }

  lemma ReplacementsAreThose(groups: seq<seq<Package>>, keys: seq<Slot>)
    requires SlotsAscend(keys) && forall k :: k in keys <==> Winner(groups, k).Some?
    ensures ReplacementsAre(groups, ReplacementsOf(groups, keys))
  {
    ReplacementsOfExactly(groups, keys);
  }

  /** What won over what. */
  method ListReplacements(ghost groups: seq<seq<Package>>, index: map<Slot, Build>, origin: map<Slot, Build>, keys: seq<Slot>)
    returns (rs: seq<Replacement>)
    requires SlotsAscend(keys) && forall k :: k in keys <==> k in index
    requires forall k :: Lookup(index, k) == Winner(groups, k) && Lookup(origin, k) == Origin(groups, k)
    ensures rs == ReplacementsOf(groups, keys)
  {
    rs := [];
    for i := 0 to |keys|
      invariant rs == ReplacementsOf(groups, keys[..i])
    {
      var k := keys[i];
      assert keys[..i + 1][..i] == keys[..i] && keys[..i + 1][i] == k;
      assert k in keys && Lookup(index, k) == Winner(groups, k) && Lookup(origin, k) == Origin(groups, k);
      OriginIsFirst(groups, k);
      if index[k].group != origin[k].group {
        rs := rs + [Replacement(k, origin[k], index[k])];
      }
    }
    assert keys[..|keys|] == keys;
  }

  function SupersededOf(groups: seq<seq<Package>>, keys: seq<Slot>): map<Slot, map<string, Build>> {
    if keys == [] then map[]
    else
      var front, k := SupersededOf(groups, keys[..|keys| - 1]), keys[|keys| - 1];
      if Winner(groups, k).None? then front
      else
        var losers := Shelf(Contenders(groups, k), Winner(groups, k).value);
        if losers == map[] then front else front[k := losers]
  }

  lemma {:induction false} SupersededOfExactly(groups: seq<seq<Package>>, keys: seq<Slot>)
    requires SlotsAscend(keys)
    ensures var s := SupersededOf(groups, keys);
      && (forall k :: k in s ==> k in keys && s[k] != map[] && Winner(groups, k).Some?)
      && (forall k :: k in keys && Winner(groups, k).Some? ==>
            Shelved(s, k) == Shelf(Contenders(groups, k), Winner(groups, k).value))
  {
    if keys != [] {
      var front, k := keys[..|keys| - 1], keys[|keys| - 1];
      assert keys == front + [k];
      SlotsDistinct(keys, |front|);
      SupersededOfExactly(groups, front);
    }
  }

  /** What lost. */
  method ListSuperseded(ghost groups: seq<seq<Package>>, index: map<Slot, Build>, candidates: map<Slot, seq<Build>>,
                        keys: seq<Slot>)
    returns (superseded: map<Slot, map<string, Build>>)
    requires forall k :: k in keys ==> k in index
    requires forall k :: Lookup(index, k) == Winner(groups, k)
    requires forall k :: Held(candidates, k) == Contenders(groups, k)
    ensures superseded == SupersededOf(groups, keys)
  {
    superseded := map[];
    for i := 0 to |keys|
      invariant superseded == SupersededOf(groups, keys[..i])
    {
      var k := keys[i];
      assert keys[..i + 1][..i] == keys[..i] && keys[..i + 1][i] == k;
      assert k in keys && Lookup(index, k) == Winner(groups, k);
      var losers := Shelve(Held(candidates, k), index[k]);
      if losers != map[] { superseded := superseded[k := losers]; }
    }
    assert keys[..|keys|] == keys;
  }

  lemma SlotsDistinct(keys: seq<Slot>, i: nat)
    requires SlotsAscend(keys) && i < |keys|
    ensures keys[i] !in keys[..i]
  {
    SlotLessOrder(keys[i], keys[i], keys[i]);
  }

  /** Collapse the package lists of several repositories into one: the newest build of each slot. */
  method MergePackages(groups: seq<seq<Package>>) returns (m: Merged)
    ensures IsMerge(groups, m)
  {
    var index: map<Slot, Build>, origin: map<Slot, Build>, candidates: map<Slot, seq<Build>> := map[], map[], map[];
    for g := 0 to |groups|
      invariant forall k :: At(groups[..g], k, index, origin, candidates)
    {
      index, origin, candidates := FoldGroup(groups[..g], groups[g], g, index, origin, candidates);
      assert groups[..g + 1] == groups[..g] + [groups[g]];
    }
    assert groups[..|groups|] == groups;
    var keys := SortSlots(index.Keys);
    forall k
      ensures Lookup(index, k) == Winner(groups, k) && Lookup(origin, k) == Origin(groups, k)
      ensures Held(candidates, k) == Contenders(groups, k)
    {
      assert At(groups, k, index, origin, candidates);
    }
    var packages := ListWinners(groups, index, keys);
    var replacements := ListReplacements(groups, index, origin, keys);
    var superseded := ListSuperseded(groups, index, candidates, keys);
    assert forall k :: k in keys <==> Lookup(index, k).Some?;
    ReplacementsAreThose(groups, keys);
    SupersededOfExactly(groups, keys);
    m := Merged(packages, replacements, superseded);
  }

  // ── What a merge means ───────────────────────────────────────────────

  /** One build a slot, and none of any repository is newer. */
  lemma MergeIsNewest(groups: seq<seq<Package>>, m: Merged, p: Package)
    requires IsMerge(groups, m) && p in m.packages
    ensures Somewhere(groups, p)
    ensures forall q :: Somewhere(groups, q) && SlotOf(q) == SlotOf(p) ==> !Newer(q, p)
    ensures forall q :: q in m.packages && SlotOf(q) == SlotOf(p) ==> q == p
  {
    WinnerIsNewest(groups, SlotOf(p), p);
    forall q | Somewhere(groups, q) && SlotOf(q) == SlotOf(p) ensures !Newer(q, p) {
      WinnerIsNewest(groups, SlotOf(p), q);
    }
  }

  /** No slot is lost. */
  lemma MergeKeepsSlots(groups: seq<seq<Package>>, m: Merged, q: Package)
    requires IsMerge(groups, m) && Somewhere(groups, q)
    ensures exists p :: p in m.packages && SlotOf(p) == SlotOf(q)
  {
    WinnerIsNewest(groups, SlotOf(q), q);
  }

  /** Each replacement is strictly newer than what the earliest repository had, which it really had. */
  lemma MergeReplacesWithNewer(groups: seq<seq<Package>>, m: Merged, r: Replacement)
    requires IsMerge(groups, m) && r in m.replacements
    ensures Newer(r.to.pkg, r.from.pkg) && r.to.pkg in m.packages
    ensures r.from.group < r.to.group < |groups| && r.from.pkg in groups[r.from.group]
    ensures forall g, q :: 0 <= g < r.from.group && q in groups[g] ==> SlotOf(q) != r.slot
  {
    var k := r.slot;
    ReplacedIffNewer(groups, k);
    OriginIsFirst(groups, k);
    WinnerWins(groups, k);
    GroupBestIsNewest(groups[r.from.group], k);
    GroupBestIsNewest(groups[r.to.group], k);
    forall g, q | 0 <= g < r.from.group && q in groups[g] ensures SlotOf(q) != k {
      GroupBestIsNewest(groups[g], k);
    }
  }

  lemma {:induction false} ContendersAreBest(groups: seq<seq<Package>>, k: Slot, b: Build)
    ensures b in Contenders(groups, k) <==> b.group < |groups| && GroupBest(groups[b.group], k) == Some(b.pkg)
  {
    if groups != [] {
      var front := groups[..|groups| - 1];
      ContendersAreBest(front, k, b);
      assert b.group < |front| ==> groups[b.group] == front[b.group];
    }
  }

  /** A superseded build can be named by its version, lost its slot, and is no newer than what won it. */
  lemma SupersededLost(groups: seq<seq<Package>>, m: Merged, k: Slot, t: string)
    requires IsMerge(groups, m) && k in m.superseded && t in m.superseded[k]
    ensures var b := m.superseded[k][t];
      && EvrText(b.pkg.evr) == t && SlotOf(b.pkg) == k && Somewhere(groups, b.pkg)
      && b.group != Winner(groups, k).value.group && !Newer(b.pkg, Winner(groups, k).value.pkg)
  {
    var b, w := m.superseded[k][t], Winner(groups, k).value;
    ShelfHoldsLosers(Contenders(groups, k), w);
    ContendersAreBest(groups, k, b);
    GroupBestIsNewest(groups[b.group], k);
    WinnerIsNewest(groups, k, b.pkg);
  }

  ghost predicate GroupsAscend(bs: seq<Build>) {
    forall i, j :: 0 <= i < j < |bs| ==> bs[i].group < bs[j].group
  }

  lemma {:induction false} ContendersAscend(groups: seq<seq<Package>>, k: Slot)
    ensures GroupsAscend(Contenders(groups, k)) && forall b :: b in Contenders(groups, k) ==> b.group < |groups|
  {
    if groups != [] { ContendersAscend(groups[..|groups| - 1], k); }
  }

  /** Of several losers with one version text, the last is kept. */
  lemma {:induction false} ShelfHoldsLast(contenders: seq<Build>, winner: Build, b: Build)
    requires GroupsAscend(contenders) && b in contenders && b.group != winner.group
    ensures EvrText(b.pkg.evr) in Shelf(contenders, winner)
    ensures Shelf(contenders, winner)[EvrText(b.pkg.evr)].group >= b.group
  {
    var front, last := contenders[..|contenders| - 1], contenders[|contenders| - 1];
    assert contenders == front + [last];
    if b in front {
      ShelfHoldsLast(front, winner, b);
      var i :| 0 <= i < |front| && front[i] == b;
      assert contenders[i] == b;
    }
  }

  /**
   * The best build of a repository that did not win is superseded by its
   * version text; of several with one text, the last repository's is.
   */
  lemma LosersAreSuperseded(groups: seq<seq<Package>>, m: Merged, k: Slot, g: nat)
    requires IsMerge(groups, m) && g < |groups| && GroupBest(groups[g], k).Some?
    requires Winner(groups, k).Some? && g != Winner(groups, k).value.group
    ensures k in m.superseded && EvrText(GroupBest(groups[g], k).value.evr) in m.superseded[k]
    ensures var t := EvrText(GroupBest(groups[g], k).value.evr);
      var b := m.superseded[k][t];
      && g <= b.group < |groups| && b.group != Winner(groups, k).value.group
      && GroupBest(groups[b.group], k) == Some(b.pkg) && EvrText(b.pkg.evr) == t
  {
    var cs, w := Contenders(groups, k), Winner(groups, k).value;
    var b := Build(g, GroupBest(groups[g], k).value);
    ContendersAreBest(groups, k, b);
    ContendersAscend(groups, k);
    ShelfHoldsLast(cs, w, b);
    ShelfHoldsLosers(cs, w);
    ContendersAreBest(groups, k, Shelf(cs, w)[EvrText(b.pkg.evr)]);
  }

  /** Of the builds with one name and architecture, whoever brings them, one is merged, and none has a greater version. */
  lemma OnePerNameAndArch(groups: seq<seq<Package>>, m: Merged, p: Package)
    requires IsMerge(groups, m) && Somewhere(groups, p)
    ensures exists w :: w in m.packages && w.name == p.name && w.arch == p.arch && CompareEvr(p.evr, w.evr) <= 0
              && forall q :: q in m.packages && q.name == p.name && q.arch == p.arch ==> q == w
  {
    MergeKeepsSlots(groups, m, p);
    var w :| w in m.packages && SlotOf(w) == SlotOf(p);
    MergeIsNewest(groups, m, w);
    assert !Newer(p, w);
  }
}
