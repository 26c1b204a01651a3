/** Buildroot packages fill the slots the compose leaves empty, and no others. */
module FallbackMerge {
  import opened Packages
  import opened Merge
  import opened MergeRun

  // ── A stable sort by slot ────────────────────────────────────────────

  /** The packages of one slot, in order. */
  function OfSlot(ps: seq<Package>, k: Slot): seq<Package> {
    if ps == [] then []
    else (if SlotOf(ps[0]) == k then [ps[0]] else []) + OfSlot(ps[1..], k)
  }

  ghost predicate SlotSorted(ps: seq<Package>) {
    forall i, j :: 0 <= i < j < |ps| ==> !SlotLess(SlotOf(ps[j]), SlotOf(ps[i]))
  }

  /** Put a package after those it does not sort before. */
  function Place(p: Package, ps: seq<Package>): (r: seq<Package>)
    ensures forall q :: q in r <==> q == p || q in ps
  {
    if ps == [] then [p]
    else if SlotLess(SlotOf(p), SlotOf(ps[0])) then [p] + ps
    else
      assert ps == [ps[0]] + ps[1..];
      [ps[0]] + Place(p, ps[1..])
  }

  lemma {:induction false} OfSlotAppend(ps: seq<Package>, qs: seq<Package>, k: Slot)
    ensures OfSlot(ps + qs, k) == OfSlot(ps, k) + OfSlot(qs, k)
  {
    if ps == [] {
      assert ps + qs == qs;
    } else {
      assert (ps + qs)[1..] == ps[1..] + qs;
      OfSlotAppend(ps[1..], qs, k);
    }
  }

  lemma {:induction false} OfSlotNone(ps: seq<Package>, k: Slot)
    requires forall p :: p in ps ==> SlotOf(p) != k
    ensures OfSlot(ps, k) == []
  {
    if ps != [] { OfSlotNone(ps[1..], k); }
  }

  lemma {:induction false} PlaceSorts(p: Package, ps: seq<Package>)
    requires SlotSorted(ps)
    ensures SlotSorted(Place(p, ps))
  {
    if ps != [] {
      if SlotLess(SlotOf(p), SlotOf(ps[0])) {
        forall j | 0 <= j < |ps| ensures !SlotLess(SlotOf(ps[j]), SlotOf(p)) {
          SlotLessOrder(SlotOf(ps[j]), SlotOf(p), SlotOf(ps[0]));
          SlotLessOrder(SlotOf(ps[0]), SlotOf(ps[0]), SlotOf(ps[0]));
        }
      } else {
        PlaceSorts(p, ps[1..]);
        var tail := Place(p, ps[1..]);
        forall j | 0 <= j < |tail| ensures !SlotLess(SlotOf(tail[j]), SlotOf(ps[0])) {
          assert tail[j] in tail;
        }
      }
    }
  }

  /** Placing a package puts it last among its slot's, and keeps every slot's order. */
  lemma {:induction false} PlaceIsStable(p: Package, ps: seq<Package>, k: Slot)
    requires SlotSorted(ps)
    ensures OfSlot(Place(p, ps), k) == OfSlot(ps, k) + (if SlotOf(p) == k then [p] else [])
  {
    if ps != [] {
      if SlotLess(SlotOf(p), SlotOf(ps[0])) {
        assert ([p] + ps)[1..] == ps;
        if SlotOf(p) == k {
          forall q | q in ps ensures SlotOf(q) != k {
            var j :| 0 <= j < |ps| && ps[j] == q;
            SlotLessOrder(SlotOf(p), SlotOf(p), SlotOf(p));
          }
          OfSlotNone(ps, k);
        }
      } else {
        PlaceIsStable(p, ps[1..], k);
        assert ([ps[0]] + Place(p, ps[1..]))[1..] == Place(p, ps[1..]);
      }
    }
  }

  /** `sorted(packages, key=slot)` */
  method SortBySlot(ps: seq<Package>) returns (r: seq<Package>)
    ensures SlotSorted(r)
    ensures forall k :: OfSlot(r, k) == OfSlot(ps, k)
  {
    r := [];
    for i := 0 to |ps|
      invariant SlotSorted(r)
      invariant forall k :: OfSlot(r, k) == OfSlot(ps[..i], k)
    {
      assert ps[..i + 1] == ps[..i] + [ps[i]];
      forall k ensures OfSlot(Place(ps[i], r), k) == OfSlot(ps[..i + 1], k) {
        PlaceIsStable(ps[i], r, k);
        OfSlotAppend(ps[..i], [ps[i]], k);
      }
      PlaceSorts(ps[i], r);
      r := Place(ps[i], r);
    }
    assert ps[..|ps|] == ps;
  }

  // ── Filling empty slots ──────────────────────────────────────────────

  function Slots(ps: seq<Package>): set<Slot> {
    set p | p in ps :: SlotOf(p)
  }

  /** Those of a list whose slot is, or is not, among `taken`. */
  function Within(ps: seq<Package>, taken: set<Slot>, inside: bool): (r: seq<Package>)
    ensures forall p :: p in r <==> p in ps && (SlotOf(p) in taken) == inside
  {
    if ps == [] then []
    else
      assert ps == [ps[0]] + ps[1..];
      (if (SlotOf(ps[0]) in taken) == inside then [ps[0]] else []) + Within(ps[1..], taken, inside)
  }

  lemma {:induction false} WithinOfSlot(ps: seq<Package>, taken: set<Slot>, inside: bool, k: Slot)
    ensures OfSlot(Within(ps, taken, inside), k) == if (k in taken) == inside then OfSlot(ps, k) else []
  {
    if ps != [] {
      WithinOfSlot(ps[1..], taken, inside, k);
      OfSlotAppend(if (SlotOf(ps[0]) in taken) == inside then [ps[0]] else [], Within(ps[1..], taken, inside), k);
    }
  }

  /** A merged list has exactly the winner in each slot. */
  lemma OneOfSlot(groups: seq<seq<Package>>, ps: seq<Package>, k: Slot)
    requires PackagesAre(groups, ps)
    ensures OfSlot(ps, k) == if Winner(groups, k).Some? then [Winner(groups, k).value.pkg] else []
  {
    if Winner(groups, k).None? {
      OfSlotNone(ps, k);
    } else {
      var w := Winner(groups, k).value.pkg;
      WinnerIsNewest(groups, k, w);
      var i :| 0 <= i < |ps| && ps[i] == w;
      AloneInSlot(groups, ps, i);
      OfSlotNone(ps[..i], k);
      OfSlotNone(ps[i + 1..], k);
      OfSlotOnly(ps, i, k);
    }
  }

  lemma AloneInSlot(groups: seq<seq<Package>>, ps: seq<Package>, i: nat)
    requires PackagesAre(groups, ps) && i < |ps|
    ensures forall p :: p in ps[..i] || p in ps[i + 1..] ==> SlotOf(p) != SlotOf(ps[i])
  {
    SlotLessOrder(SlotOf(ps[i]), SlotOf(ps[i]), SlotOf(ps[i]));
  }

  lemma OfSlotOnly(ps: seq<Package>, i: nat, k: Slot)
    requires i < |ps| && SlotOf(ps[i]) == k && OfSlot(ps[..i], k) == [] && OfSlot(ps[i + 1..], k) == []
    ensures OfSlot(ps, k) == [ps[i]]
  {
    assert ps == ps[..i] + ([ps[i]] + ps[i + 1..]);
    OfSlotAppend(ps[..i], [ps[i]] + ps[i + 1..], k);
    OfSlotAppend([ps[i]], ps[i + 1..], k);
    assert OfSlot([ps[i]], k) == [ps[i]] + OfSlot([], k);
  }

  datatype Filled = Filled(
    combined: seq<Package>,
    added: seq<Package>,
    shadowed: seq<Package>,
    superseded: map<Slot, map<string, Build>>)

  /** What stands in a slot once fallback repositories have filled the gaps. */
  function FilledSlot(compose: seq<Package>, fallback: seq<seq<Package>>, k: Slot): seq<Package> {
    if k in Slots(compose) then OfSlot(compose, k)
    else if Winner(fallback, k).Some? then [Winner(fallback, k).value.pkg]
    else []
  }

  /** Every occupied slot keeps exactly its compose builds, in order; an empty one gets the fallback's newest. */
  method MergeFallbackPackages(compose: seq<Package>, fallback: seq<seq<Package>>) returns (f: Filled)
    ensures SlotSorted(f.combined) && forall k :: OfSlot(f.combined, k) == FilledSlot(compose, fallback, k)
    ensures forall p :: p in f.added <==>
      SlotOf(p) !in Slots(compose) && Winner(fallback, SlotOf(p)).Some? && Winner(fallback, SlotOf(p)).value.pkg == p
    ensures forall p :: p in f.shadowed <==>
      SlotOf(p) in Slots(compose) && Winner(fallback, SlotOf(p)).Some? && Winner(fallback, SlotOf(p)).value.pkg == p
    ensures forall k :: k in Slots(compose) ==> k !in f.superseded
    ensures forall k :: k !in Slots(compose) && Winner(fallback, k).Some? ==>
      Shelved(f.superseded, k) == Shelf(Contenders(fallback, k), Winner(fallback, k).value)
  {
    var m := MergePackages(fallback);
    var taken := Slots(compose);
    var added := Within(m.packages, taken, false);
    var shadowed := Within(m.packages, taken, true);
    var addedSlots := Slots(added);
    var superseded := map k | k in m.superseded && k in addedSlots :: m.superseded[k];
    var combined := SortBySlot(compose + added);
    forall k ensures OfSlot(combined, k) == FilledSlot(compose, fallback, k) {
      FillsSlot(compose, fallback, m.packages, k);
    }
    forall k | k !in taken && Winner(fallback, k).Some? ensures Shelved(superseded, k) == Shelved(m.superseded, k) {
      WinnerIsNewest(fallback, k, Winner(fallback, k).value.pkg);
      assert Winner(fallback, k).value.pkg in added;
    }
    f := Filled(combined, added, shadowed, superseded);
  }

  lemma FillsSlot(compose: seq<Package>, fallback: seq<seq<Package>>, merged: seq<Package>, k: Slot)
    requires PackagesAre(fallback, merged)
    ensures OfSlot(compose + Within(merged, Slots(compose), false), k) == FilledSlot(compose, fallback, k)
  {
    OfSlotAppend(compose, Within(merged, Slots(compose), false), k);
    WithinOfSlot(merged, Slots(compose), false, k);
    OneOfSlot(fallback, merged, k);
    if k !in Slots(compose) { OfSlotNone(compose, k); }
  }
}
