/** Fallback repositories merged into a compose change the build of none of its names. */
module FallbackUniverse {
  import opened Options
  import opened Packages
  import opened Merge
  import opened MergeRun
  import opened FallbackMerge
  import opened Collapse
  import opened Universe

  /** The packages of a list that do not come from a fallback repository, in order. */
  function ComposeOf(st: Setting, ps: seq<Package>): (r: seq<Package>)
    ensures forall p :: p in r <==> p in ps && !IsFallback(st, p)
  {
    if ps == [] then []
    else
      assert ps == [ps[0]] + ps[1..];
      (if IsFallback(st, ps[0]) then [] else [ps[0]]) + ComposeOf(st, ps[1..])
  }

  lemma {:induction false} ComposeOfAppend(st: Setting, ps: seq<Package>, qs: seq<Package>)
    ensures ComposeOf(st, ps + qs) == ComposeOf(st, ps) + ComposeOf(st, qs)
  {
    if ps == [] {
      assert ps + qs == qs;
    } else {
      assert (ps + qs)[1..] == ps[1..] + qs;
      ComposeOfAppend(st, ps[1..], qs);
    }
  }

  lemma {:induction false} ComposeOfAll(st: Setting, ps: seq<Package>)
    requires forall p :: p in ps ==> !IsFallback(st, p)
    ensures ComposeOf(st, ps) == ps
  {
    if ps != [] { ComposeOfAll(st, ps[1..]); }
  }

  // ── A name with a compose build stands for the build it has without the fallbacks ─

  /** The record a name stands for. */
  function BestRecord(st: Setting, ps: seq<Package>, name: string): Option<Package> {
    if Best(st, ps, name).Some? then Some(ps[Best(st, ps, name).value]) else None
  }

  ghost predicate SameBuild(st: Setting, ps: seq<Package>, qs: seq<Package>, name: string) {
    BestRecord(st, ps, name).Some? && BestRecord(st, ps, name) == BestRecord(st, qs, name)
  }

  lemma BestAppend(st: Setting, front: seq<Package>, last: Package, name: string)
    ensures var b := BestRecord(st, front, name);
      BestRecord(st, front + [last], name)
      == if last.name == name && (b.None? || Better(st, last, b.value)) then Some(last) else b
  {
    assert (front + [last])[..|front|] == front;
  }

  lemma BestIsListed(st: Setting, ps: seq<Package>, name: string)
    ensures var b := BestRecord(st, ps, name);
      if b.Some? then b.value in ps && b.value.name == name else forall p :: p in ps ==> p.name != name
  {
    BestIsBest(st, ps, name);
  }

  lemma {:induction false} ComposeDecides(st: Setting, ps: seq<Package>, name: string)
    requires exists p :: p in ComposeOf(st, ps) && p.name == name
    ensures SameBuild(st, ps, ComposeOf(st, ps), name)
  {
    var n := |ps| - 1;
    var front, last := ps[..n], ps[n];
    assert ps == front + [last];
    ComposeOfAppend(st, front, [last]);
    if exists p :: p in ComposeOf(st, front) && p.name == name {
      ComposeDecides(st, front, name);
      StillDecides(st, front, last, name);
    } else {
      FirstDecides(st, front, last, name);
    }
  }

  lemma FirstDecides(st: Setting, front: seq<Package>, last: Package, name: string)
    requires !IsFallback(st, last) && last.name == name
    requires forall p :: p in ComposeOf(st, front) ==> p.name != name
    ensures SameBuild(st, front + [last], ComposeOf(st, front + [last]), name)
  {
    var before := ComposeOf(st, front);
    ComposeOfAppend(st, front, [last]);
    assert ComposeOf(st, [last]) == [last];
    BestIsListed(st, before, name);
    BestIsListed(st, front, name);
    BestAppend(st, front, last, name);
    BestAppend(st, before, last, name);
  }

  lemma StillDecides(st: Setting, front: seq<Package>, last: Package, name: string)
    requires SameBuild(st, front, ComposeOf(st, front), name)
    ensures SameBuild(st, front + [last], ComposeOf(st, front + [last]), name)
  {
    var before := ComposeOf(st, front);
    ComposeOfAppend(st, front, [last]);
    BestIsListed(st, before, name);
    BestAppend(st, front, last, name);
    if IsFallback(st, last) {
      assert ComposeOf(st, [last]) == [] && before + [] == before;
    } else {
      assert ComposeOf(st, [last]) == [last];
      BestAppend(st, before, last, name);
    }
  }

  // ── The merged list, without its fallbacks, is the compose ───────────

  lemma {:induction false} ComposeOfSorted(st: Setting, ps: seq<Package>)
    requires SlotSorted(ps)
    ensures SlotSorted(ComposeOf(st, ps))
  {
    if ps != [] {
      ComposeOfSorted(st, ps[1..]);
      var tail := ComposeOf(st, ps[1..]);
      forall j | 0 <= j < |tail| ensures !SlotLess(SlotOf(tail[j]), SlotOf(ps[0])) {
        assert tail[j] in tail && tail[j] in ps[1..];
      }
    }
  }

  lemma {:induction false} ComposeOfSlot(st: Setting, ps: seq<Package>, k: Slot)
    ensures OfSlot(ComposeOf(st, ps), k) == ComposeOf(st, OfSlot(ps, k))
  {
    if ps != [] {
      ComposeOfSlot(st, ps[1..], k);
      var first := if IsFallback(st, ps[0]) then [] else [ps[0]];
      OfSlotAppend(first, ComposeOf(st, ps[1..]), k);
      ComposeOfAppend(st, if SlotOf(ps[0]) == k then [ps[0]] else [], OfSlot(ps[1..], k));
    }
  }

  lemma {:induction false} OfSlotMember(ps: seq<Package>, p: Package)
    requires p in ps
    ensures OfSlot(ps, SlotOf(p)) != []
  {
    if ps[0] != p {
      assert ps == [ps[0]] + ps[1..];
      OfSlotMember(ps[1..], p);
    }
  }

  lemma {:induction false} OfSlotIn(ps: seq<Package>, k: Slot)
    ensures forall p :: p in OfSlot(ps, k) ==> p in ps && SlotOf(p) == k
  {
    if ps != [] { OfSlotIn(ps[1..], k); }
  }

  /** A list sorted by slot is determined by what it has in each slot. */
  lemma {:induction false} SortedBySlots(ps: seq<Package>, qs: seq<Package>)
    requires SlotSorted(ps) && SlotSorted(qs) && forall k :: OfSlot(ps, k) == OfSlot(qs, k)
    ensures ps == qs
  {
    if ps == [] {
      if qs != [] { OfSlotMember(qs, qs[0]); }
    } else {
      SameFirst(ps, qs);
      forall k ensures OfSlot(ps[1..], k) == OfSlot(qs[1..], k) {
        assert OfSlot(ps, k) == OfSlot(qs, k);
        var first := if SlotOf(ps[0]) == k then [ps[0]] else [];
        assert OfSlot(ps[1..], k) == OfSlot(ps, k)[|first|..] && OfSlot(qs[1..], k) == OfSlot(qs, k)[|first|..];
      }
      SortedBySlots(ps[1..], qs[1..]);
      assert ps == [ps[0]] + ps[1..] && qs == [qs[0]] + qs[1..];
    }
  }

  lemma SameFirst(ps: seq<Package>, qs: seq<Package>)
    requires SlotSorted(ps) && SlotSorted(qs) && forall k :: OfSlot(ps, k) == OfSlot(qs, k)
    requires ps != []
    ensures qs != [] && ps[0] == qs[0]
  {
    var k := SlotOf(ps[0]);
    OfSlotMember(ps, ps[0]);
    OfSlotIn(qs, k);
    assert OfSlot(qs, k)[0] in OfSlot(qs, k);
    var j := SlotOf(qs[0]);
    OfSlotMember(qs, qs[0]);
    OfSlotIn(ps, j);
    assert OfSlot(ps, j)[0] in OfSlot(ps, j);
    SlotLessOrder(k, j, k);
    assert OfSlot(ps, k) == OfSlot(qs, k);
  }

  /** The result of `merge_fallback_packages`, with its fallback packages taken out, is the compose it was given. */
  lemma MergedHoldsCompose(st: Setting, compose: seq<Package>, fallback: seq<seq<Package>>, combined: seq<Package>)
    requires SlotSorted(compose) && forall p :: p in compose ==> !IsFallback(st, p)
    requires forall p :: Somewhere(fallback, p) ==> IsFallback(st, p)
    requires SlotSorted(combined) && forall k :: OfSlot(combined, k) == FilledSlot(compose, fallback, k)
    ensures ComposeOf(st, combined) == compose
  {
    ComposeOfSorted(st, combined);
    forall k ensures OfSlot(ComposeOf(st, combined), k) == OfSlot(compose, k) {
      ComposeOfSlot(st, combined, k);
      assert OfSlot(combined, k) == FilledSlot(compose, fallback, k);
      if k in Slots(compose) {
        OfSlotIn(compose, k);
        ComposeOfAll(st, OfSlot(compose, k));
      } else {
        OfSlotNone(compose, k);
        if Winner(fallback, k).Some? { WinnerIsNewest(fallback, k, Winner(fallback, k).value.pkg); }
      }
    }
    SortedBySlots(ComposeOf(st, combined), compose);
  }

  /** Without fallback packages it does not matter which repositories are fallbacks. */
  lemma {:induction false} BestWithoutFallbacks(st: Setting, ps: seq<Package>, name: string)
    requires forall p :: p in ps ==> !IsFallback(st, p)
    ensures Best(st, ps, name) == Best(st.(fallback := {}), ps, name)
  {
    if ps != [] {
      var n := |ps| - 1;
      assert forall p :: p in ps[..n] ==> p in ps;
      BestWithoutFallbacks(st, ps[..n], name);
      assert ps[n] in ps;
      var b := Best(st, ps[..n], name);
      if b.Some? { assert ps[b.value] in ps; }
    }
  }

  /**
   * Each name of a merged compose stands, with the fallback repositories
   * filled in, for the record it stands for in the universe of the compose.
   */
  lemma FallbackLeavesCompose(st: Setting, groups: seq<seq<Package>>, compose: seq<Package>,
                              fallback: seq<seq<Package>>, combined: seq<Package>, u: Universe, u': Universe, p: Package)
    requires PackagesAre(groups, compose) && p in compose && forall q :: q in compose ==> !IsFallback(st, q)
    requires forall q :: Somewhere(fallback, q) ==> IsFallback(st, q)
    requires SlotSorted(combined) && forall k :: OfSlot(combined, k) == FilledSlot(compose, fallback, k)
    requires IsUniverse(st.(fallback := {}), compose, u) && IsUniverse(st, combined, u')
    ensures SameRecord(compose, u, combined, u', p.name)
  {
    forall i, j | 0 <= i < j < |compose| ensures !SlotLess(SlotOf(compose[j]), SlotOf(compose[i])) {
      SlotLessOrder(SlotOf(compose[i]), SlotOf(compose[j]), SlotOf(compose[i]));
    }
    MergedHoldsCompose(st, compose, fallback, combined);
    ComposeDecides(st, combined, p.name);
    BestWithoutFallbacks(st, compose, p.name);
    assert Lookup(u.binaryIndex, p.name) == Standing(st.(fallback := {}), compose, p.name);
    assert Lookup(u'.binaryIndex, p.name) == Standing(st, combined, p.name);
  }

  /** Two universes have one and the same record under a name. */
  ghost predicate SameRecord(ps: seq<Package>, u: Universe, qs: seq<Package>, v: Universe, name: string) {
    && name in u.binaryIndex && u.binaryIndex[name] < |ps|
    && name in v.binaryIndex && v.binaryIndex[name] < |qs|
    && ps[u.binaryIndex[name]] == qs[v.binaryIndex[name]]
  }

  /** Merge a compose and its fallbacks, and index both the whole and the compose alone: what a solve starts from. */
  method IndexRepositories(st: Setting, groups: seq<seq<Package>>, fallback: seq<seq<Package>>)
    returns (compose: seq<Package>, combined: seq<Package>, whole: Universe, alone: Universe)
    ensures PackagesAre(groups, compose)
    ensures SlotSorted(combined) && forall k :: OfSlot(combined, k) == FilledSlot(compose, fallback, k)
    ensures IsUniverse(st, combined, whole) && IsUniverse(st.(fallback := {}), compose, alone)
    ensures
      (forall q :: q in compose ==> !IsFallback(st, q)) && (forall q :: Somewhere(fallback, q) ==> IsFallback(st, q)) ==>
        forall p :: p in compose ==> SameRecord(compose, alone, combined, whole, p.name)
  {
    var merged := MergePackages(groups);
    compose := merged.packages;
    var filled := MergeFallbackPackages(compose, fallback);
    combined := filled.combined;
    whole := BuildUniverse(st, combined);
    alone := BuildUniverse(st.(fallback := {}), compose);
    if (forall q :: q in compose ==> !IsFallback(st, q)) && (forall q :: Somewhere(fallback, q) ==> IsFallback(st, q)) {
      forall p | p in compose ensures SameRecord(compose, alone, combined, whole, p.name) {
        FallbackLeavesCompose(st, groups, compose, fallback, combined, alone, whole, p);
      }
    }
  }
}
