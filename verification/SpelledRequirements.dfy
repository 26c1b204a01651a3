/** Requirements as they are written: the operators, the flags of repository metadata, and what each asks of a version. */
module SpelledRequirements {
  import opened Options
  import opened PyText
  import opened RpmVersion
  import opened Requirement
  import opened Packages
  import opened Constrained
  import opened VersionRanges

  /** The operators between a capability and a version that hide none of their own. */
  lemma OperatorsSpelled(cap: string, text: string)
    requires forall op :: Legible(cap, op, text)
    ensures SplitConstraint(cap + " >= " + text) == Split(cap, Some(Ge), text)
    ensures SplitConstraint(cap + " <= " + text) == Split(cap, Some(Le), text)
    ensures SplitConstraint(cap + " = " + text) == Split(cap, Some(Eq), text)
    ensures SplitConstraint(cap + " > " + text) == Split(cap, Some(Gt), text)
    ensures SplitConstraint(cap + " < " + text) == Split(cap, Some(Lt), text)
  {
    SignsSpelled();
    WrittenReadsBack(cap, Ge, text);
    WrittenReadsBack(cap, Le, text);
    WrittenReadsBack(cap, Eq, text);
    WrittenReadsBack(cap, Gt, text);
    WrittenReadsBack(cap, Lt, text);
  }

  lemma SignsSpelled()
    ensures Sign(Ge) == " >= " && Sign(Le) == " <= " && Sign(Eq) == " = " && Sign(Gt) == " > " && Sign(Lt) == " < "
  {
  }

  ghost predicate Occurs(s: string, sign: string) {
    exists i: nat :: Stands(s, sign, i)
  }

  /** Which operator a requirement is cut at, if several occur: the longer ones first, then equality, then greater. */
  lemma OperatorsInOrder(s: string)
    requires !IsRichDep(s)
    ensures SplitConstraint(s).op ==
      if Occurs(s, Sign(Ge)) then Some(Ge)
      else if Occurs(s, Sign(Le)) then Some(Le)
      else if Occurs(s, Sign(Eq)) then Some(Eq)
      else if Occurs(s, Sign(Gt)) then Some(Gt)
      else if Occurs(s, Sign(Lt)) then Some(Lt)
      else None
  {
    SplitFirst(s, Lt, []);
    SplitFirst(s, Gt, [Lt]);
    SplitFirst(s, Eq, [Gt, Lt]);
    SplitFirst(s, Le, [Eq, Gt, Lt]);
    SplitFirst(s, Ge, [Le, Eq, Gt, Lt]);
    assert OPS == [Ge] + [Le, Eq, Gt, Lt] && [Le] + [Eq, Gt, Lt] == [Le, Eq, Gt, Lt];
    assert [Eq] + [Gt, Lt] == [Eq, Gt, Lt] && [Gt] + [Lt] == [Gt, Lt] && [Lt] + [] == [Lt];
  }

  lemma SplitFirst(s: string, op: Op, rest: seq<Op>)
    ensures SplitAt(s, [op] + rest).op == if Occurs(s, Sign(op)) then Some(op) else SplitAt(s, rest).op
  {
    FindFirst(s, Sign(op));
    assert ([op] + rest)[0] == op && ([op] + rest)[1..] == rest;
  }

  /** What a flag of repository metadata asks of the comparison with the version beside it; others ask nothing. */
  predicate FlagHolds(flags: string, c: int) {
    if flags == "EQ" then c == 0
    else if flags == "GE" then c >= 0
    else if flags == "GT" then c > 0
    else if flags == "LE" then c <= 0
    else flags == "LT" && c < 0
  }

  predicate KnownFlag(flags: string) {
    flags == "EQ" || flags == "GE" || flags == "GT" || flags == "LE" || flags == "LT"
  }

  /** A provided version meets the rendered range exactly when it compares as the flag says, as precisely as the range states. */
  lemma FlagMeans(name: string, flags: string, e: Evr, v: Evr)
    requires Writable(name, e)
    ensures FlagOp(flags).Some? <==> KnownFlag(flags)
    ensures KnownFlag(flags) ==>
      var s := SplitConstraint(Rendered(name, FlagOp(flags).value, e));
      s.name == name && (SatisfiesConstraint(Some(v), s.op, s.wanted) <==> FlagHolds(flags, CompareEvr(AsPreciseAs(v, e), e)))
  {
    if KnownFlag(flags) { BoundAt(name, FlagOp(flags).value, e, v); }
  }

  /** How a version is written after the operator: `epoch:version-release`, an epoch of 0 and a missing release left out. */
  lemma BoundSpelled(epoch: string, version: string, release: string)
    ensures BoundText(Evr(None, Some(version), None)) == version
    ensures BoundText(Evr(Some("0"), Some(version), Some(""))) == version
    ensures release != "" ==> BoundText(Evr(Some(""), Some(version), Some(release))) == version + "-" + release
    ensures epoch != "" && epoch != "0" && release != "" ==>
      BoundText(Evr(Some(epoch), Some(version), Some(release))) == epoch + ":" + version + "-" + release
  {
    assert "" + version + "" == version;
    assert "" + version + ("-" + release) == version + "-" + release;
    assert (epoch + ":") + version + ("-" + release) == epoch + ":" + version + "-" + release;
  }

  /** Each requirement of a package: as it is, if no range with a known flag names it, else with the first that does. */
  lemma NeedSpelled(p: Package, i: nat)
    requires i < |p.needs|
    ensures var need, asked := p.needs[i], ConstrainedNeeds(p)[i];
      || (asked == need && forall j :: 0 <= j < |p.ranges| && KnownFlag(p.ranges[j].flags) ==> p.ranges[j].cap != need)
      || (exists j :: FirstFor(p.ranges, need, j) && asked == need + Sign(FlagOp(p.ranges[j].flags).value) + BoundText(p.ranges[j].evr))
  {
    FirstRangeIs(p.ranges, p.needs[i]);
  }

  /** The first range of a capability whose flag is known. */
  ghost predicate FirstFor(ranges: seq<Range>, cap: string, j: int) {
    && 0 <= j < |ranges| && ranges[j].cap == cap && KnownFlag(ranges[j].flags)
    && FlagOp(ranges[j].flags).Some?
    && forall k :: 0 <= k < j && KnownFlag(ranges[k].flags) ==> ranges[k].cap != cap
  }

  /** The text is the first such range, written out; or there is no such range. */
  ghost predicate FirstWritten(ranges: seq<Range>, cap: string, r: Option<string>) {
    if r.None? then forall j :: 0 <= j < |ranges| && KnownFlag(ranges[j].flags) ==> ranges[j].cap != cap
    else exists j ::
      FirstFor(ranges, cap, j) && r.value == cap + Sign(FlagOp(ranges[j].flags).value) + BoundText(ranges[j].evr)
  }

  lemma {:induction false} FirstRangeIs(ranges: seq<Range>, cap: string)
    ensures FirstWritten(ranges, cap, FirstRange(ranges, cap))
  {
    if ranges != [] {
      var n := |ranges| - 1;
      FirstRangeIs(ranges[..n], cap);
      if FirstRange(ranges[..n], cap).Some? {
        FirstStays(ranges, cap, FirstRange(ranges[..n], cap));
      } else {
        FirstIsLast(ranges, cap);
      }
    }
  }

  lemma FirstStays(ranges: seq<Range>, cap: string, r: Option<string>)
    requires ranges != [] && r.Some? && FirstWritten(ranges[..|ranges| - 1], cap, r)
    ensures FirstWritten(ranges, cap, r)
  {
    var front := ranges[..|ranges| - 1];
    var j :| FirstFor(front, cap, j) && r.value == cap + Sign(FlagOp(front[j].flags).value) + BoundText(front[j].evr);
    assert ranges[j] == front[j] && forall k :: 0 <= k < j ==> front[k] == ranges[k];
    assert FirstFor(ranges, cap, j);
  }

  lemma FirstIsLast(ranges: seq<Range>, cap: string)
    requires ranges != [] && FirstRange(ranges[..|ranges| - 1], cap).None?
    requires FirstWritten(ranges[..|ranges| - 1], cap, None)
    ensures FirstWritten(ranges, cap, FirstRange(ranges, cap))
  {
    var n := |ranges| - 1;
    var front, last := ranges[..n], ranges[n];
    assert forall k :: 0 <= k < n ==> front[k] == ranges[k];
    if last.cap == cap && KnownFlag(last.flags) {
      RenderedSpelled(cap, FlagOp(last.flags).value, last.evr);
      assert FirstFor(ranges, cap, n);
    }
  }

  lemma RenderedSpelled(cap: string, op: Op, e: Evr)
    ensures Rendered(cap, op, e) == cap + Sign(op) + BoundText(e)
  {
  }

  /** A package that states no version of a capability satisfies any constraint on it; one that does, by some version. */
  lemma UnversionedSatisfies(stated: seq<Evr>, op: Op, wanted: string)
    ensures AnyVersionSatisfies([], Some(op), wanted)
    ensures stated != [] ==>
      (AnyVersionSatisfies(stated, Some(op), wanted)
       <==> exists e :: e in stated && SatisfiesConstraint(Some(e), Some(op), wanted))
    ensures AnyVersionSatisfies(stated, None, wanted)
  {
    if stated != [] { assert SatisfiesConstraint(Some(stated[0]), None, wanted); }
  }
}
