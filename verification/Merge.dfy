/** `merge_packages` and `merge_fallback_packages`: one build per slot, the newest, whatever the order of the documents. */
module Merge {
  import opened Options
  import opened RpmVersion
  import opened Packages

  /** A build as the merge knows it: which group brought it.  A group brings at most one per slot. */
  datatype Build = Build(group: nat, pkg: Package)

  // ── Folds ────────────────────────────────────────────────────────────

  /** The first build of a group for a slot that no later one is newer than. */
  function GroupBest(ps: seq<Package>, k: Slot): Option<Package> {
    if ps == [] then None
    else
      var best, last := GroupBest(ps[..|ps| - 1], k), ps[|ps| - 1];
      if SlotOf(last) == k && (best.None? || Newer(last, best.value)) then Some(last) else best
  }

  /** The build that wins a slot. */
  function Winner(groups: seq<seq<Package>>, k: Slot): Option<Build> {
    if groups == [] then None
    else
      var n := |groups| - 1;
      var w, best := Winner(groups[..n], k), GroupBest(groups[n], k);
      if best.Some? && (w.None? || Newer(best.value, w.value.pkg)) then Some(Build(n, best.value)) else w
  }

  /** What the earliest group with the slot had in it. */
  function Origin(groups: seq<seq<Package>>, k: Slot): Option<Build> {
    if groups == [] then None
    else
      var n := |groups| - 1;
      var o, best := Origin(groups[..n], k), GroupBest(groups[n], k);
      if o.None? && best.Some? then Some(Build(n, best.value)) else o
  }

  /** Each group's best build. */
  function Contenders(groups: seq<seq<Package>>, k: Slot): seq<Build> {
    if groups == [] then []
    else
      var n := |groups| - 1;
      var best := GroupBest(groups[n], k);
      Contenders(groups[..n], k) + if best.Some? then [Build(n, best.value)] else []
  }

  // ── What the folds find ──────────────────────────────────────────────

  /** `p` is a build for the slot, and nothing in the list for the slot is newer. */
  ghost predicate Newest(ps: seq<Package>, k: Slot, p: Package) {
    p in ps && SlotOf(p) == k && forall q :: q in ps && SlotOf(q) == k ==> !Newer(q, p)
  }

  lemma {:induction false} GroupBestIsNewest(ps: seq<Package>, k: Slot)
    ensures GroupBest(ps, k).None? <==> forall p :: p in ps ==> SlotOf(p) != k
    ensures GroupBest(ps, k).Some? ==> Newest(ps, k, GroupBest(ps, k).value)
  {
    if ps != [] {
      var front, last := ps[..|ps| - 1], ps[|ps| - 1];
      assert ps == front + [last];
      GroupBestIsNewest(front, k);
      var best, now := GroupBest(front, k), GroupBest(ps, k);
      if now.Some? {
        forall q | q in ps && SlotOf(q) == k ensures !Newer(q, now.value) {
          if best.Some? && q in front { NewerOrder(q, best.value, now.value); }
          if best.Some? { NewerOrder(last, best.value, last); }
          NewerOrder(last, last, last);
        }
      }
    }
  }

  /** The build at `i` is newer than all before it for the slot, and none after it is newer. */
  ghost predicate FirstNewest(ps: seq<Package>, k: Slot, i: nat) {
    && i < |ps| && SlotOf(ps[i]) == k
    && (forall j :: 0 <= j < i && SlotOf(ps[j]) == k ==> Newer(ps[i], ps[j]))
    && (forall j :: i < j < |ps| && SlotOf(ps[j]) == k ==> !Newer(ps[j], ps[i]))
  }

  /** Of equal builds in one repository the first stays. */
  lemma {:induction false} GroupBestIsFirst(ps: seq<Package>, k: Slot)
    ensures GroupBest(ps, k).Some? ==> exists i: nat :: FirstNewest(ps, k, i) && ps[i] == GroupBest(ps, k).value
  {
    if ps != [] && GroupBest(ps, k).Some? {
      var n := |ps| - 1;
      var front := ps[..n];
      GroupBestIsFirst(front, k);
      var best := GroupBest(front, k);
      if best.Some? && !(SlotOf(ps[n]) == k && Newer(ps[n], best.value)) {
        var i: nat :| FirstNewest(front, k, i) && front[i] == best.value;
        assert forall j :: 0 <= j < n ==> ps[j] == front[j];
        assert FirstNewest(ps, k, i);
      } else {
        GroupBestIsNewest(front, k);
        forall j | 0 <= j < n && SlotOf(ps[j]) == k ensures Newer(ps[n], ps[j]) {
          assert ps[j] == front[j] && ps[j] in front;
          if !Newer(ps[n], ps[j]) { NewerOrder(ps[n], ps[j], best.value); }
        }
        assert FirstNewest(ps, k, n);
      }
    }
  }

  ghost predicate Somewhere(groups: seq<seq<Package>>, p: Package) {
    exists g :: 0 <= g < |groups| && p in groups[g]
  }

  /** The winner is its group's best, no group has anything newer, and only later groups tie with it. */
  ghost predicate Wins(groups: seq<seq<Package>>, k: Slot, w: Build) {
    && w.group < |groups| && GroupBest(groups[w.group], k) == Some(w.pkg)
    && (forall g, q :: 0 <= g < |groups| && q in groups[g] && SlotOf(q) == k ==> !Newer(q, w.pkg))
    && (forall g, q :: 0 <= g < w.group && q in groups[g] && SlotOf(q) == k ==> Newer(w.pkg, q))
  }

  lemma {:induction false} WinnerWins(groups: seq<seq<Package>>, k: Slot)
    ensures Winner(groups, k).None? <==> forall p :: Somewhere(groups, p) ==> SlotOf(p) != k
    ensures Winner(groups, k).Some? ==> Wins(groups, k, Winner(groups, k).value)
  {
    if groups != [] {
      var n := |groups| - 1;
      var front := groups[..n];
      WinnerWins(front, k);
      GroupBestIsNewest(groups[n], k);
      var was, best, w := Winner(front, k), GroupBest(groups[n], k), Winner(groups, k);
      assert groups == front + [groups[n]];
      assert forall p :: Somewhere(groups, p) <==> Somewhere(front, p) || p in groups[n];
      if w.Some? {
        if w == was { WinnerStays(groups, k, w.value); } else { WinnerMoves(front, groups[n], k, was, best.value); }
      }
    }
  }

  lemma WinnerStays(groups: seq<seq<Package>>, k: Slot, w: Build)
    requires groups != [] && Wins(groups[..|groups| - 1], k, w)
    requires var best := GroupBest(groups[|groups| - 1], k); best.Some? ==> !Newer(best.value, w.pkg)
    ensures Wins(groups, k, w)
  {
    var n := |groups| - 1;
    var front := groups[..n];
    assert forall g :: 0 <= g < n ==> groups[g] == front[g];
    GroupBestIsNewest(groups[n], k);
    forall g, q | 0 <= g < |groups| && q in groups[g] && SlotOf(q) == k ensures !Newer(q, w.pkg) {
      if g == n { NewerOrder(q, GroupBest(groups[n], k).value, w.pkg); }
    }
  }

  lemma WinnerMoves(front: seq<seq<Package>>, ps: seq<Package>, k: Slot, was: Option<Build>, p: Package)
    requires GroupBest(ps, k) == Some(p)
    requires was.Some? ==> Wins(front, k, was.value) && Newer(p, was.value.pkg)
    requires was.None? ==> forall q :: Somewhere(front, q) ==> SlotOf(q) != k
    ensures Wins(front + [ps], k, Build(|front|, p))
  {
    var groups := front + [ps];
    GroupBestIsNewest(ps, k);
    forall g, q | 0 <= g < |front| && q in groups[g] && SlotOf(q) == k ensures Newer(p, q) && !Newer(q, p) {
      assert q in front[g];
      assert Somewhere(front, q);
      NewerThanAll(front, k, was, p, q);
    }
  }

  lemma NewerThanAll(groups: seq<seq<Package>>, k: Slot, was: Option<Build>, p: Package, q: Package)
    requires was.Some? ==> Wins(groups, k, was.value) && Newer(p, was.value.pkg)
    requires was.None? ==> forall x :: Somewhere(groups, x) ==> SlotOf(x) != k
    requires Somewhere(groups, q) && SlotOf(q) == k
    ensures Newer(p, q) && !Newer(q, p)
  {
    NewerOrder(p, q, was.value.pkg);
  }

  lemma WinsEarliest(groups: seq<seq<Package>>, k: Slot, v: Build, w: Build)
    requires Wins(groups, k, v) && Wins(groups, k, w)
    ensures v.group >= w.group
  {
    GroupBestIsNewest(groups[v.group], k);
    GroupBestIsNewest(groups[w.group], k);
    assert !Newer(w.pkg, v.pkg);
  }

  /** Winning is exactly that: the fold finds the one build that wins, if there is one. */
  lemma WinnerExactly(groups: seq<seq<Package>>, k: Slot, w: Build)
    ensures Winner(groups, k) == Some(w) <==> Wins(groups, k, w)
  {
    WinnerWins(groups, k);
    if Wins(groups, k, w) {
      GroupBestIsNewest(groups[w.group], k);
      assert Somewhere(groups, w.pkg);
      WinsEarliest(groups, k, w, Winner(groups, k).value);
      WinsEarliest(groups, k, Winner(groups, k).value, w);
    }
  }

  /** The winner is some group's build for the slot, and no group's is newer. */
  lemma WinnerIsNewest(groups: seq<seq<Package>>, k: Slot, p: Package)
    ensures Winner(groups, k).Some? ==>
      Somewhere(groups, Winner(groups, k).value.pkg) && SlotOf(Winner(groups, k).value.pkg) == k
    ensures Somewhere(groups, p) && SlotOf(p) == k ==> Winner(groups, k).Some? && !Newer(p, Winner(groups, k).value.pkg)
  {
    WinnerWins(groups, k);
    if Winner(groups, k).Some? {
      var w := Winner(groups, k).value;
      GroupBestIsNewest(groups[w.group], k);
      if Somewhere(groups, p) && SlotOf(p) == k {
        var g :| 0 <= g < |groups| && p in groups[g];
      }
    }
  }

  // ── Order does not matter ────────────────────────────────────────────

  /** Reordering the groups or their documents moves a slot only between builds of one version. */
  lemma WinnerIgnoresOrder(groups: seq<seq<Package>>, groups': seq<seq<Package>>, k: Slot)
    requires forall p :: Somewhere(groups, p) <==> Somewhere(groups', p)
    ensures Winner(groups, k).Some? <==> Winner(groups', k).Some?
    ensures Winner(groups, k).Some? ==>
      CompareEvr(Winner(groups, k).value.pkg.evr, Winner(groups', k).value.pkg.evr) == 0
  {
    if Winner(groups, k).Some? {
      WinnerIsNewest(groups, k, Winner(groups, k).value.pkg);
      WinnerIsNewest(groups', k, Winner(groups, k).value.pkg);
    }
    if Winner(groups', k).Some? {
      WinnerIsNewest(groups', k, Winner(groups', k).value.pkg);
      WinnerIsNewest(groups, k, Winner(groups', k).value.pkg);
      EvrTotalPreorder(Winner(groups, k).value.pkg.evr, Winner(groups', k).value.pkg.evr, Winner(groups, k).value.pkg.evr);
    }
  }

  lemma {:induction false} OriginIsFirst(groups: seq<seq<Package>>, k: Slot)
    ensures Origin(groups, k).Some? <==> Winner(groups, k).Some?
    ensures Origin(groups, k).None? ==> forall g :: 0 <= g < |groups| ==> GroupBest(groups[g], k).None?
    ensures Origin(groups, k).Some? ==>
      var o := Origin(groups, k).value;
      && o.group < |groups| && GroupBest(groups[o.group], k) == Some(o.pkg)
      && forall g :: 0 <= g < o.group ==> GroupBest(groups[g], k).None?
  {
    if groups != [] {
      var front := groups[..|groups| - 1];
      OriginIsFirst(front, k);
      assert forall g :: 0 <= g < |front| ==> groups[g] == front[g];
    }
  }

  /** A slot is reported as replaced when its winner is not the build the earliest group had. */
  predicate Replaced(groups: seq<seq<Package>>, k: Slot) {
    && Winner(groups, k).Some? && Origin(groups, k).Some?
    && Winner(groups, k).value.group != Origin(groups, k).value.group
  }

  /** A replacement is always strictly newer than what it replaced, and anything strictly newer replaces. */
  lemma ReplacedIffNewer(groups: seq<seq<Package>>, k: Slot)
    requires Winner(groups, k).Some?
    ensures Origin(groups, k).Some?
    ensures Replaced(groups, k) <==> Newer(Winner(groups, k).value.pkg, Origin(groups, k).value.pkg)
  {
    OriginIsFirst(groups, k);
    WinnerWins(groups, k);
    var w, o := Winner(groups, k).value, Origin(groups, k).value;
    GroupBestIsNewest(groups[o.group], k);
    GroupBestIsNewest(groups[w.group], k);
    NewerOrder(w.pkg, w.pkg, w.pkg);
    assert w.group == o.group ==> w.pkg == o.pkg;
  }

  /** Which slots are replaced does not depend on the order of documents within a group. */
  lemma ReplacedIgnoresDocumentOrder(groups: seq<seq<Package>>, groups': seq<seq<Package>>, k: Slot)
    requires |groups| == |groups'| && forall g :: 0 <= g < |groups| ==> SameElements(groups[g], groups'[g])
    ensures Replaced(groups, k) <==> Replaced(groups', k)
  {
    forall p ensures Somewhere(groups, p) <==> Somewhere(groups', p) {
      if g :| 0 <= g < |groups| && p in groups[g] { assert SameElements(groups[g], groups'[g]); }
      if g :| 0 <= g < |groups'| && p in groups'[g] { assert SameElements(groups[g], groups'[g]); }
    }
    WinnerIgnoresOrder(groups, groups', k);
    OriginIsFirst(groups, k);
    OriginIsFirst(groups', k);
    if Winner(groups, k).Some? {
      SameOrigin(groups, groups', k);
      ReplacedIffNewer(groups, k);
      ReplacedIffNewer(groups', k);
      var w, w', o, o' := Winner(groups, k).value.pkg, Winner(groups', k).value.pkg,
                          Origin(groups, k).value.pkg, Origin(groups', k).value.pkg;
      EvrTotalPreorder(w.evr, w'.evr, w.evr);
      EvrTotalPreorder(o.evr, o'.evr, o.evr);
      NewerOrder(w, w', o);
      NewerOrder(w', w, o');
      NewerOrder(w, o', o);
      NewerOrder(w', o, o');
    }
  }

  ghost predicate SameElements(ps: seq<Package>, qs: seq<Package>) {
    forall p :: p in ps <==> p in qs
  }

  lemma SameBest(ps: seq<Package>, qs: seq<Package>, k: Slot)
    requires SameElements(ps, qs)
    ensures GroupBest(ps, k).Some? <==> GroupBest(qs, k).Some?
    ensures GroupBest(ps, k).Some? ==> !Newer(GroupBest(ps, k).value, GroupBest(qs, k).value)
  {
    GroupBestIsNewest(ps, k);
    GroupBestIsNewest(qs, k);
  }

  lemma SameOrigin(groups: seq<seq<Package>>, groups': seq<seq<Package>>, k: Slot)
    requires |groups| == |groups'| && forall g :: 0 <= g < |groups| ==> SameElements(groups[g], groups'[g])
    requires Origin(groups, k).Some? && Origin(groups', k).Some?
    ensures var o, o' := Origin(groups, k).value, Origin(groups', k).value;
      && o.group == o'.group && CompareEvr(o.pkg.evr, o'.pkg.evr) == 0
  {
    OriginIsFirst(groups, k);
    OriginIsFirst(groups', k);
    var o, o' := Origin(groups, k).value, Origin(groups', k).value;
    SameBest(groups[o.group], groups'[o.group], k);
    SameBest(groups'[o.group], groups[o.group], k);
    SameBest(groups[o'.group], groups'[o'.group], k);
    EvrTotalPreorder(o.pkg.evr, o'.pkg.evr, o.pkg.evr);
  }
}
