/** Capabilities, version constraints and the choice of one provider. */
module Requirement {
  import opened Options
  import opened PyText
  import opened RpmVersion

  // ── Constraints ──────────────────────────────────────────────────────

  datatype Op = Ge | Le | Eq | Gt | Lt

  function OpText(op: Op): string {
    match op
    case Ge => ">="
    case Le => "<="
    case Eq => "="
    case Gt => ">"
    case Lt => "<"
  }

  predicate IsRichDep(capability: string) {
    var t := LStrip(capability);
    t != "" && t[0] == '('
  }

  datatype Split = Split(name: string, op: Option<Op>, wanted: string)

  /** An operator as it is looked for. */
  function Sign(op: Op): string {
    " " + OpText(op) + " "
  }

  function CutAt(capability: string, op: Op, at: nat): Split
    requires at + |Sign(op)| <= |capability|
  {
    Split(Strip(capability[..at]), Some(op), Strip(capability[at + |Sign(op)|..]))
  }

  /** Cut at the first occurrence of the first operator of `ops` that occurs at all. */
  function SplitAt(capability: string, ops: seq<Op>): Split {
    if ops == [] then Split(Strip(capability), None, "")
    else
      var at := Find(capability, Sign(ops[0]));
      if at.Some? then CutAt(capability, ops[0], at.value)
      else
        SplitAt(capability, ops[1..])
  }

  const OPS: seq<Op> := [Ge, Le, Eq, Gt, Lt]

  function SplitConstraint(capability: string): Split {
    if IsRichDep(capability) then Split(Strip(capability), None, "") else SplitAt(capability, OPS)
  }

  /** The lookup key of a requirement: its text without a version constraint. */
  function StripVersion(capability: string): string {
    SplitConstraint(capability).name
  }

  /** The components an EVR string states; those it does not are `None`. */
  function EvrParts(text: string): Evr {
    var (epoch, rest) := Partition(text, ':');
    var (version, release) := Partition(if rest.Some? then rest.value else text, '-');
    Evr(if rest.Some? then Some(epoch) else None, Some(version), release)
  }

  /** `p_epoch or "0"` */
  function OrZero(epoch: Option<string>): Option<string> {
    if epoch.Some? && epoch.value != "" then epoch else Some("0")
  }

  /** A provided EVR against a wanted one, at the precision the wanted one states. */
  function CompareToWanted(provided: Evr, wanted: string): int {
    var w := EvrParts(wanted);
    CompareEvr(
      Evr(OrZero(provided.epoch), provided.version, if w.release.Some? then provided.release else None),
      Evr(OrZero(w.epoch), w.version, w.release))
  }

  predicate OpHolds(op: Op, c: int) {
    match op
    case Ge => c >= 0
    case Le => c <= 0
    case Eq => c == 0
    case Gt => c > 0
    case Lt => c < 0
  }

  predicate SatisfiesConstraint(provided: Option<Evr>, op: Option<Op>, wanted: string) {
    op.None? || provided.None? || OpHolds(op.value, CompareToWanted(provided.value, wanted))
  }

  predicate AnyVersionSatisfies(provided: seq<Evr>, op: Option<Op>, wanted: string) {
    provided == [] || exists i :: 0 <= i < |provided| && SatisfiesConstraint(Some(provided[i]), op, wanted)
  }

  // ── Bounds are intervals ─────────────────────────────────────────────

  /** Truncating to the stated precision keeps the order of EVRs. */
  lemma PrecisionMonotone(p: Evr, q: Evr, wanted: string)
    requires CompareEvr(p, q) <= 0
    ensures CompareToWanted(q, wanted) <= 0 ==> CompareToWanted(p, wanted) <= 0
    ensures CompareToWanted(p, wanted) >= 0 ==> CompareToWanted(q, wanted) >= 0
    ensures CompareToWanted(q, wanted) < 0 ==> CompareToWanted(p, wanted) < 0
    ensures CompareToWanted(p, wanted) > 0 ==> CompareToWanted(q, wanted) > 0
  {
    var w := EvrParts(wanted);
    var p' := Evr(OrZero(p.epoch), p.version, if w.release.Some? then p.release else None);
    var q' := Evr(OrZero(q.epoch), q.version, if w.release.Some? then q.release else None);
    var w' := Evr(OrZero(w.epoch), w.version, w.release);
    EpochDefault(p.epoch);
    EpochDefault(q.epoch);
    VersionTotalPreorder("", "", "");
    assert CompareEvr(p', q') <= 0;
    EvrTotalPreorder(p', q', w');
    EvrTotalPreorder(q', w', p');
    EvrTotalPreorder(w', p', q');
    EvrTotalPreorder(p', w', q');
    EvrTotalPreorder(q', p', w');
    EvrTotalPreorder(w', q', p');
  }

  lemma EpochDefault(epoch: Option<string>)
    ensures EpochInt(OrZero(epoch)) == EpochInt(epoch)
  {
    if OrZero(epoch) == Some("0") {
      assert TrimInt("0") == "0" && DropUnderscores("0") == "0";
      assert ValueFrom("0", 0) == ValueFrom("0"[1..], 0);
    }
  }

  datatype Bound = Bound(op: Op, wanted: string)

  predicate MeetsAll(provided: Evr, bounds: seq<Bound>) {
    forall i :: 0 <= i < |bounds| ==> SatisfiesConstraint(Some(provided), Some(bounds[i].op), bounds[i].wanted)
  }

  /** Whatever lies between two versions that meet every bound meets every bound. */
  lemma BoundsConvex(p: Evr, q: Evr, r: Evr, bounds: seq<Bound>)
    requires CompareEvr(p, q) <= 0 && CompareEvr(q, r) <= 0
    requires MeetsAll(p, bounds) && MeetsAll(r, bounds)
    ensures MeetsAll(q, bounds)
  {
    forall i | 0 <= i < |bounds|
      ensures SatisfiesConstraint(Some(q), Some(bounds[i].op), bounds[i].wanted)
    {
      PrecisionMonotone(p, q, bounds[i].wanted);
      PrecisionMonotone(q, r, bounds[i].wanted);
    }
  }

  /** Exactly one of `<`, `=` and `>` holds, and `<=`, `>=` are their unions. */
  lemma ConstraintTrichotomy(p: Evr, wanted: string)
    ensures var lt, eq, gt := SatisfiesConstraint(Some(p), Some(Lt), wanted),
                              SatisfiesConstraint(Some(p), Some(Eq), wanted),
                              SatisfiesConstraint(Some(p), Some(Gt), wanted);
      && (lt || eq || gt) && !(lt && eq) && !(lt && gt) && !(eq && gt)
      && (SatisfiesConstraint(Some(p), Some(Le), wanted) <==> lt || eq)
      && (SatisfiesConstraint(Some(p), Some(Ge), wanted) <==> gt || eq)
  {
  }
}
