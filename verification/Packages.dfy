/** Package records as repository metadata gives them, and the slots they compete for. */
module Packages {
  import opened Options
  import opened TextOrder
  import opened RpmVersion
  import opened VersionMeaning

  /** A versioned `Requires` entry: what is required, the comparison flag, the version. */
  datatype Range = Range(cap: string, flags: string, evr: Evr)

  datatype Package = Package(
    name: string,
    arch: string,
    repo: string,
    evr: Evr,
    provided: seq<string>,
    provideEvr: seq<(string, Evr)>,
    needs: seq<string>,
    ranges: seq<Range>,
    sourcerpm: Option<string>)

  /** Builds of one name for one architecture compete; others do not. */
  datatype Slot = Slot(name: string, arch: string)

  function SlotOf(p: Package): Slot {
    Slot(p.name, p.arch)
  }

  /** `package_is_newer` */
  predicate Newer(a: Package, b: Package) {
    CompareEvr(a.evr, b.evr) > 0
  }

  /** "Not newer" is a total preorder. */
  lemma NewerOrder(a: Package, b: Package, c: Package)
    ensures !Newer(a, a)
    ensures Newer(a, b) ==> !Newer(b, a)
    ensures !Newer(a, b) && !Newer(b, c) ==> !Newer(a, c)
  {
    EvrTotalPreorder(a.evr, b.evr, c.evr);
    EvrTotalPreorder(a.evr, a.evr, a.evr);
    EvrTotalPreorder(b.evr, c.evr, a.evr);
    EvrTotalPreorder(a.evr, c.evr, b.evr);
  }

  /** A build is newer by its epoch, as a number, then by its version, then by its release. */
  lemma NewerMeans(a: Package, b: Package, m: int, n: int)
    requires EpochStates(a.evr.epoch, m) && EpochStates(b.evr.epoch, n)
    ensures var v, r := VersionCompare(OrEmpty(a.evr.version), OrEmpty(b.evr.version)),
                        VersionCompare(OrEmpty(a.evr.release), OrEmpty(b.evr.release));
      Newer(a, b) <==> m > n || (m == n && (v == 1 || (v == 0 && r == 1)))
  {
    EvrIsLexicographic(a.evr, b.evr, m, n);
    VersionTotalPreorder(OrEmpty(a.evr.version), OrEmpty(b.evr.version), "");
    VersionTotalPreorder(OrEmpty(a.evr.release), OrEmpty(b.evr.release), "");
  }

  // ── Slots in order ───────────────────────────────────────────────────

  predicate SlotLess(a: Slot, b: Slot) {
    Less(a.name, b.name) || (a.name == b.name && Less(a.arch, b.arch))
  }

  lemma SlotLessOrder(a: Slot, b: Slot, c: Slot)
    ensures !SlotLess(a, a)
    ensures a == b || SlotLess(a, b) || SlotLess(b, a)
    ensures SlotLess(a, b) && SlotLess(b, c) ==> SlotLess(a, c)
  {
    LessIrreflexive(a.name);
    LessIrreflexive(a.arch);
    LessTotal(a.name, b.name);
    LessTotal(a.arch, b.arch);
    if Less(a.name, b.name) && Less(b.name, c.name) { LessTransitive(a.name, b.name, c.name); }
    if Less(a.arch, b.arch) && Less(b.arch, c.arch) { LessTransitive(a.arch, b.arch, c.arch); }
  }

  ghost predicate SlotsAscend(ks: seq<Slot>) {
    forall i, j :: 0 <= i < j < |ks| ==> SlotLess(ks[i], ks[j])
  }

  function InsertSlot(k: Slot, ks: seq<Slot>): (r: seq<Slot>)
    ensures forall x :: x in r <==> x == k || x in ks
  {
    if ks == [] then [k]
    else if SlotLess(k, ks[0]) then [k] + ks
    else
      assert ks == [ks[0]] + ks[1..];
      [ks[0]] + InsertSlot(k, ks[1..])
  }

  lemma {:induction false} InsertSlotAscends(k: Slot, ks: seq<Slot>)
    requires SlotsAscend(ks) && k !in ks
    ensures SlotsAscend(InsertSlot(k, ks))
  {
    if ks != [] {
      if SlotLess(k, ks[0]) {
        forall j | 0 <= j < |ks| ensures SlotLess(k, ks[j]) { SlotLessOrder(k, ks[0], ks[j]); }
      } else {
        SlotLessOrder(k, ks[0], k);
        InsertSlotAscends(k, ks[1..]);
        var tail := InsertSlot(k, ks[1..]);
        forall j | 0 <= j < |tail| ensures SlotLess(ks[0], tail[j]) { assert tail[j] in tail; }
      }
    }
  }

  /** `sorted` over the keys of a dictionary. */
  method SortSlots(s: set<Slot>) returns (ks: seq<Slot>)
    ensures SlotsAscend(ks) && forall k :: k in ks <==> k in s
  {
    ks := [];
    var rest := s;
    while rest != {}
      invariant rest <= s && SlotsAscend(ks)
      invariant forall k :: k in ks <==> k in s && k !in rest
      decreases rest
    {
      var k :| k in rest;
      InsertSlotAscends(k, ks);
      ks := InsertSlot(k, ks);
      rest := rest - {k};
    }
  }

  // ── Versions as text ─────────────────────────────────────────────────

  /** How `format` shows an attribute that may be missing. */
  function Shown(x: Option<string>): string {
    if x.Some? then x.value else "None"
  }

  /** `_evr_string` */
  function EvrText(e: Evr): string {
    (if e.epoch.None? || e.epoch.value == "" || e.epoch.value == "0" then "" else e.epoch.value + ":")
    + Shown(e.version) + "-" + Shown(e.release)
  }

  /** `epoch:version-release`, an epoch of 0 left out. */
  lemma EvrTextSpelled(epoch: string, version: string, release: string)
    ensures EvrText(Evr(None, Some(version), Some(release))) == version + "-" + release
    ensures EvrText(Evr(Some(""), Some(version), Some(release))) == version + "-" + release
    ensures EvrText(Evr(Some("0"), Some(version), Some(release))) == version + "-" + release
    ensures epoch != "" && epoch != "0" ==>
      EvrText(Evr(Some(epoch), Some(version), Some(release))) == epoch + ":" + version + "-" + release
  {
    assert "" + version == version;
  }
}
