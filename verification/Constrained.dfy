/** `constrained_requires`: a requirement with its version range spelled out. */
module Constrained {
  import opened Options
  import opened PyText
  import opened RpmVersion
  import opened Requirement
  import opened Packages

  /** rpm's own feature capabilities, which no package provides. */
  predicate IsPseudo(cap: string) {
    "rpmlib(" <= cap || "config(" <= cap || "rpmlib" <= cap
  }

  function FlagOp(flags: string): Option<Op> {
    if flags == "EQ" then Some(Eq)
    else if flags == "GE" then Some(Ge)
    else if flags == "GT" then Some(Gt)
    else if flags == "LE" then Some(Le)
    else if flags == "LT" then Some(Lt)
    else None
  }

  function Truthy(x: Option<string>): bool {
    x.Some? && x.value != ""
  }

  /** The version of a bound, as it is written after the operator. */
  function BoundText(e: Evr): string {
    (if Truthy(e.epoch) && e.epoch.value != "0" then e.epoch.value + ":" else "")
    + Shown(e.version) + (if Truthy(e.release) then "-" + e.release.value else "")
  }

  function Rendered(cap: string, op: Op, e: Evr): string {
    cap + " " + OpText(op) + " " + BoundText(e)
  }

  /** The first range of a capability whose flag is known. */
  function FirstRange(ranges: seq<Range>, cap: string): Option<string> {
    if ranges == [] then None
    else
      var earlier, last := FirstRange(ranges[..|ranges| - 1], cap), ranges[|ranges| - 1];
      if earlier.Some? || last.cap != cap || FlagOp(last.flags).None? then earlier
      else Some(Rendered(cap, FlagOp(last.flags).value, last.evr))
  }

  function ConstrainedNeeds(p: Package): (r: seq<string>)
    ensures |r| == |p.needs|
  {
    seq(|p.needs|, i requires 0 <= i < |p.needs| =>
      var range := FirstRange(p.ranges, p.needs[i]); if range.Some? then range.value else p.needs[i])
  }

  lemma FirstRangeStep(ranges: seq<Range>, i: nat, cap: string)
    requires i < |ranges|
    ensures FirstRange(ranges[..i + 1], cap)
         == if FirstRange(ranges[..i], cap).Some? || ranges[i].cap != cap || FlagOp(ranges[i].flags).None?
            then FirstRange(ranges[..i], cap)
            else Some(Rendered(cap, FlagOp(ranges[i].flags).value, ranges[i].evr))
  {
    assert ranges[..i + 1][..i] == ranges[..i] && ranges[..i + 1][i] == ranges[i];
  }

  method CollectRanges(ranges: seq<Range>) returns (first: map<string, string>)
    ensures forall cap :: Lookup(first, cap) == FirstRange(ranges, cap)
  {
    first := map[];
    for i := 0 to |ranges|
      invariant forall cap :: Lookup(first, cap) == FirstRange(ranges[..i], cap)
    {
      var range := ranges[i];
      ghost var was := first;
      var op := FlagOp(range.flags);
      if op.Some? && range.cap !in first { first := first[range.cap := Rendered(range.cap, op.value, range.evr)]; }
      forall cap ensures Lookup(first, cap) == FirstRange(ranges[..i + 1], cap) {
        assert Lookup(was, cap) == FirstRange(ranges[..i], cap);
        FirstRangeStep(ranges, i, cap);
      }
    }
    assert ranges[..|ranges|] == ranges;
  }

  method ConstrainedRequires(p: Package) returns (r: seq<string>)
    ensures r == ConstrainedNeeds(p)
  {
    var ranges := CollectRanges(p.ranges);
    r := [];
    for i := 0 to |p.needs|
      invariant r == ConstrainedNeeds(p)[..i]
    {
      assert Lookup(ranges, p.needs[i]) == FirstRange(p.ranges, p.needs[i]);
      r := r + [if p.needs[i] in ranges then ranges[p.needs[i]] else p.needs[i]];
    }
  }

  /** Those a package can be asked to provide. */
  function Asked(needs: seq<string>): seq<string> {
    if needs == [] then []
    else (if IsPseudo(needs[0]) then [] else [needs[0]]) + Asked(needs[1..])
  }

  function PlainNeeds(p: Package): seq<string> {
    Asked(ConstrainedNeeds(p))
  }

  // ── A rendered range is read back as the range it renders ────────────

  predicate NoBlank(s: string) {
    forall i :: 0 <= i < |s| ==> !IsSpace(s[i])
  }

  /** When the reader looks for an operator. */
  function Turn(op: Op): (n: nat)
    ensures n < |OPS| && OPS[n] == op
    ensures forall i :: 0 <= i < |OPS| && OPS[i] == op ==> i == n
  {
    match op case Ge => 0 case Le => 1 case Eq => 2 case Gt => 3 case Lt => 4
  }

  /**
   * A capability and a version between which an operator can be written:
   * nothing to strip, no expression, and no operator in either that the reader
   * would find instead.
   */
  predicate Legible(cap: string, op: Op, text: string) {
    Trimmed(cap) && Trimmed(text) && (cap == "" || cap[0] != '(') && Unmistaken(cap, op, text)
  }

  /** No operator stands where the reader would take it for `op`. */
  predicate Unmistaken(cap: string, op: Op, text: string) {
    && (forall o :: Turn(o) <= Turn(op) ==> Find(cap + " ", Sign(o)).None?)
    && (forall o :: Turn(o) < Turn(op) ==> Find(" " + text, Sign(o)).None?)
  }

  lemma OpWord(op: Op)
    ensures NoBlank(OpText(op)) && OpText(op) != ""
  {
  }

  lemma OpWordsDiffer(a: Op, b: Op)
    ensures OpText(a) == OpText(b) <==> a == b
  {
    assert OpText(Ge)[0] == '>' && OpText(Le)[0] == '<' && |OpText(Eq)| == 1 && |OpText(Gt)| == 1 && |OpText(Lt)| == 1;
  }

  lemma StandsBefore(a: string, op: Op, b: string, t: string, i: nat)
    requires i + |t| <= |a| + 1
    ensures Stands(a + Sign(op) + b, t, i) <==> Stands(a + " ", t, i)
  {
    assert a + Sign(op) + b == "" + (a + " ") + (OpText(op) + " " + b);
    StandsWithin("", a + " ", OpText(op) + " " + b, t, i);
  }

  lemma StandsAfter(a: string, op: Op, b: string, t: string, j: nat)
    requires j + |t| <= |b| + 1
    ensures Stands(a + Sign(op) + b, t, |a| + |OpText(op)| + 1 + j) <==> Stands(" " + b, t, j)
  {
    assert a + Sign(op) + b == (a + " " + OpText(op)) + (" " + b) + "";
    StandsWithin(a + " " + OpText(op), " " + b, "", t, j);
  }

  /** An operator in a text with an operator written into it stands before, there, or after. */
  lemma TokenStands(a: string, op: Op, b: string, o: Op, i: nat)
    requires Stands(a + Sign(op) + b, Sign(o), i)
    ensures Stands(a + " ", Sign(o), i) || (i == |a| && o == op)
            || (i > |a| + |OpText(op)| && Stands(" " + b, Sign(o), i - |a| - |OpText(op)| - 1))
  {
    var n := |a| + |OpText(op)| + 1;
    if i + |Sign(o)| <= |a| + 1 {
      StandsBefore(a, op, b, Sign(o), i);
    } else if n <= i {
      StandsAfter(a, op, b, Sign(o), i - n);
    } else {
      StandsWithin(a, Sign(op), b, Sign(op), 0);
      TokenOverlaps(a + Sign(op) + b, op, o, |a|, i);
    }
  }

  /** Between the blanks of an operator there is no blank. */
  lemma WordInside(s: string, op: Op, at: nat)
    requires Stands(s, Sign(op), at)
    ensures s[at] == ' ' && s[at + |OpText(op)| + 1] == ' ' && IsSpace(' ')
    ensures forall k :: at < k <= at + |OpText(op)| ==> s[k] == OpText(op)[k - at - 1] && !IsSpace(s[k])
  {
    OpWord(op);
    forall k | at < k <= at + |OpText(op)| ensures s[k] == OpText(op)[k - at - 1] && !IsSpace(s[k]) {
      assert s[at + (k - at)] == Sign(op)[k - at];
    }
    assert s[at + 0] == Sign(op)[0] && s[at + (|OpText(op)| + 1)] == Sign(op)[|OpText(op)| + 1];
  }

  /** Where the text of one operator is entered by another, it is that operator. */
  lemma TokenOverlaps(s: string, op: Op, o: Op, at: nat, i: nat)
    requires Stands(s, Sign(op), at) && Stands(s, Sign(o), i)
    requires i <= at + |OpText(op)| && i + |OpText(o)| >= at
    ensures i == at && o == op
  {
    WordInside(s, op, at);
    WordInside(s, o, i);
    OpWordsDiffer(op, o);
    assert i == at && |OpText(op)| == |OpText(o)|;
    assert forall k :: 0 <= k < |OpText(op)| ==> OpText(op)[k] == s[at + 1 + k] == OpText(o)[k];
  }

  /** An operator stands in the whole if it stands before, there or after. */
  lemma FindToken(a: string, op: Op, b: string, o: Op)
    ensures Find(a + Sign(op) + b, Sign(o)).None? <==>
      Find(a + " ", Sign(o)).None? && o != op && Find(" " + b, Sign(o)).None?
  {
    var s := a + Sign(op) + b;
    FindFirst(s, Sign(o));
    FindFirst(a + " ", Sign(o));
    FindFirst(" " + b, Sign(o));
    if i: nat :| Stands(s, Sign(o), i) {
      TokenStands(a, op, b, o, i);
    }
    if i: nat :| Stands(a + " ", Sign(o), i) {
      StandsBefore(a, op, b, Sign(o), i);
    }
    StandsWithin(a, Sign(op), b, Sign(op), 0);
    if j: nat :| Stands(" " + b, Sign(o), j) {
      StandsAfter(a, op, b, Sign(o), j);
    }
  }

  /** The operator itself is found no later than where it was written, and there unless it stands before. */
  lemma FindOwn(a: string, op: Op, b: string)
    ensures var at := Find(a + Sign(op) + b, Sign(op));
      at.Some? && at.value <= |a| && (at.value == |a| <==> Find(a + " ", Sign(op)).None?)
  {
    var s := a + Sign(op) + b;
    FindFirst(s, Sign(op));
    FindFirst(a + " ", Sign(op));
    StandsWithin(a, Sign(op), b, Sign(op), 0);
    var at := Find(s, Sign(op)).value;
    TokenStands(a, op, b, op, at);
    if i: nat :| Stands(a + " ", Sign(op), i) {
      StandsBefore(a, op, b, Sign(op), i);
    }
  }

  lemma {:induction false} SplitAtFinds(s: string, ops: seq<Op>, i: nat)
    requires i < |ops| && forall k :: 0 <= k < i ==> Find(s, Sign(ops[k])).None?
    requires Find(s, Sign(ops[i])).Some?
    ensures SplitAt(s, ops) == CutAt(s, ops[i], Find(s, Sign(ops[i])).value)
  {
    if i > 0 {
      assert ops[1..][i - 1] == ops[i] && forall k :: 0 <= k < i - 1 ==> ops[1..][k] == ops[k + 1];
      SplitAtFinds(s, ops[1..], i - 1);
    }
  }

  lemma {:induction false} SplitAtFound(s: string, ops: seq<Op>)
    ensures SplitAt(s, ops).op.Some? ==>
      exists i :: 0 <= i < |ops| && ops[i] == SplitAt(s, ops).op.value && Find(s, Sign(ops[i])).Some?
                  && forall k :: 0 <= k < i ==> Find(s, Sign(ops[k])).None?
  {
    if ops != [] {
      SplitAtFound(s, ops[1..]);
      if Find(s, Sign(ops[0])).None? && SplitAt(s, ops[1..]).op.Some? {
        var i :| 0 <= i < |ops[1..]| && ops[1..][i] == SplitAt(s, ops[1..]).op.value && Find(s, Sign(ops[1..][i])).Some?
                 && forall k :: 0 <= k < i ==> Find(s, Sign(ops[1..][k])).None?;
        forall k | 0 <= k < i + 1 ensures Find(s, Sign(ops[k])).None? {
          if k > 0 { assert ops[1..][k - 1] == ops[k]; }
        }
        assert ops[i + 1] == ops[1..][i];
      }
    }
  }

  /** No operator that is looked for earlier is there. */
  predicate ComesFirst(s: string, op: Op) {
    Find(s, Sign(op)).Some? && forall o :: Turn(o) < Turn(op) ==> Find(s, Sign(o)).None?
  }

  /** The operator the reader finds, and where. */
  lemma SplitIsFirst(s: string, op: Op)
    ensures SplitAt(s, OPS).op == Some(op) <==> ComesFirst(s, op)
    ensures ComesFirst(s, op) ==> SplitAt(s, OPS) == CutAt(s, op, Find(s, Sign(op)).value)
  {
    if ComesFirst(s, op) {
      forall k | 0 <= k < Turn(op) ensures Find(s, Sign(OPS[k])).None? {
        assert Turn(OPS[k]) == k;
      }
      SplitAtFinds(s, OPS, Turn(op));
    }
    if SplitAt(s, OPS).op == Some(op) { FoundFirst(s, op); }
  }

  lemma FoundFirst(s: string, op: Op)
    requires SplitAt(s, OPS).op == Some(op)
    ensures ComesFirst(s, op)
  {
    SplitAtFound(s, OPS);
    var i :| 0 <= i < |OPS| && OPS[i] == op && Find(s, Sign(OPS[i])).Some?
             && forall k :: 0 <= k < i ==> Find(s, Sign(OPS[k])).None?;
    assert forall o :: Turn(o) < i ==> OPS[Turn(o)] == o;
  }

  /** Whether a written requirement is taken for an expression is settled by the capability. */
  lemma WrittenIsRich(cap: string, op: Op, text: string)
    requires Trimmed(cap)
    ensures IsRichDep(cap + Sign(op) + text) <==> cap != "" && cap[0] == '('
  {
    var s := cap + Sign(op) + text;
    if cap == "" {
      assert s[0] == ' ' && s[1] == OpText(op)[0] && s[1..][0] == s[1];
      OpWord(op);
      assert LStrip(s) == LStrip(s[1..]) == s[1..];
    } else {
      assert s[0] == cap[0];
    }
  }

  /** The operator that was written comes first exactly where no other does. */
  lemma WrittenComesFirst(cap: string, op: Op, text: string)
    ensures var s := cap + Sign(op) + text;
      ComesFirst(s, op) && Find(s, Sign(op)).value == |cap| <==> Unmistaken(cap, op, text)
  {
    FindOwn(cap, op, text);
    forall o | o != op
      ensures Find(cap + Sign(op) + text, Sign(o)).None? <==>
        Find(cap + " ", Sign(o)).None? && Find(" " + text, Sign(o)).None?
    {
      FindToken(cap, op, text, o);
    }
  }

  lemma CutIsThere(cap: string, op: Op, text: string, at: nat)
    requires at <= |cap|
    ensures CutAt(cap + Sign(op) + text, op, at) == Split(cap, Some(op), text) <==>
      at == |cap| && Trimmed(cap) && Trimmed(text)
  {
    var s := cap + Sign(op) + text;
    StripTrimmed(cap);
    StripTrimmed(text);
    assert |Strip(s[..at])| <= |s[..at]| == at;
    if at == |cap| {
      assert s[..at] == cap && s[at + |Sign(op)|..] == text;
    }
  }

  /** A capability, operator and version, written, are read back exactly when they are legible. */
  lemma WrittenReadsBack(cap: string, op: Op, text: string)
    ensures SplitConstraint(cap + Sign(op) + text) == Split(cap, Some(op), text) <==> Legible(cap, op, text)
  {
    var s := cap + Sign(op) + text;
    FindOwn(cap, op, text);
    SplitIsFirst(s, op);
    WrittenComesFirst(cap, op, text);
    CutIsThere(cap, op, text, Find(s, Sign(op)).value);
    if Trimmed(cap) { WrittenIsRich(cap, op, text); }
  }

  /** A versioned requirement means, to the resolver, what it was rendered from, exactly when that is legible. */
  lemma RenderedReadsBack(cap: string, op: Op, e: Evr)
    ensures SplitConstraint(Rendered(cap, op, e)) == Split(cap, Some(op), BoundText(e)) <==> Legible(cap, op, BoundText(e))
  {
    assert Rendered(cap, op, e) == cap + Sign(op) + BoundText(e);
    WrittenReadsBack(cap, op, BoundText(e));
  }

  /** Without blanks there is no operator. */
  lemma NoOperator(s: string, o: Op)
    requires NoBlank(s)
    ensures Find(s + " ", Sign(o)).None? && Find(" " + s, Sign(o)).None? && Find(s, Sign(o)).None?
  {
    FindFirst(s + " ", Sign(o));
    FindFirst(" " + s, Sign(o));
    FindFirst(s, Sign(o));
    OpWord(o);
    assert forall k :: 0 <= k < |s| ==> !IsSpace((s + " ")[k]);
    assert forall k :: 0 < k < |s| + 1 ==> !IsSpace((" " + s)[k]);
    if i: nat :| Stands(s + " ", Sign(o), i) {
      WordInside(s + " ", o, i);
    }
    if i: nat :| Stands(" " + s, Sign(o), i) {
      WordInside(" " + s, o, i);
    }
    if i: nat :| Stands(s, Sign(o), i) {
      WordInside(s, o, i);
    }
  }

  /** A word holds nothing that begins with a blank. */
  lemma WordHolds(s: string, t: string)
    requires NoBlank(s) && t != "" && IsSpace(t[0])
    ensures Find(s, t).None?
  {
    FindFirst(s, t);
    assert forall i :: 0 <= i <= |s| - |t| ==> s[i] == s[i..i + |t|][0];
  }

  /** Words are legible whatever the operator. */
  lemma WordsAreLegible(cap: string, op: Op, text: string)
    requires NoBlank(cap) && NoBlank(text) && (cap == "" || cap[0] != '(')
    ensures Legible(cap, op, text)
  {
    forall o ensures Find(cap + " ", Sign(o)).None? { NoOperator(cap, o); }
    forall o ensures Find(" " + text, Sign(o)).None? { NoOperator(text, o); }
  }

  /** A word is a capability without a constraint. */
  lemma WordIsName(cap: string)
    requires NoBlank(cap)
    ensures SplitConstraint(cap) == Split(cap, None, "")
  {
    StripTrimmed(cap);
    if SplitAt(cap, OPS).op.Some? {
      SplitAtFound(cap, OPS);
      NoOperator(cap, SplitAt(cap, OPS).op.value);
    }
    SplitAtNothing(cap, OPS);
  }

  lemma {:induction false} SplitAtNothing(s: string, ops: seq<Op>)
    ensures SplitAt(s, ops).op.None? ==> SplitAt(s, ops) == Split(Strip(s), None, "")
  {
    if ops != [] { SplitAtNothing(s, ops[1..]); }
  }

  // ── And so is its version ────────────────────────────────────────────

  lemma {:induction false} PartitionAt(a: string, c: char, b: string)
    requires c !in a
    ensures Partition(a + [c] + b, c) == (a, Some(b))
  {
    if a == "" {
      assert a + [c] + b == [c] + b;
    } else {
      assert (a + [c] + b)[1..] == a[1..] + [c] + b && (a + [c] + b)[0] == a[0];
      assert a == [a[0]] + a[1..];
      PartitionAt(a[1..], c, b);
    }
  }

  lemma {:induction false} PartitionWhole(a: string, c: char)
    requires c !in a
    ensures Partition(a, c) == (a, None)
  {
    if a != "" { PartitionWhole(a[1..], c); }
  }

  /** The epoch a bound states: none for an absent, empty or zero one. */
  function StatedEpoch(e: Evr): Option<string> {
    if Truthy(e.epoch) && e.epoch.value != "0" then e.epoch else None
  }

  function StatedRelease(e: Evr): Option<string> {
    if Truthy(e.release) then e.release else None
  }

  /** No component holds the punctuation that separates components. */
  predicate WellPunctuated(e: Evr) {
    && e.version.Some? && ':' !in e.version.value && '-' !in e.version.value
    && (e.epoch.Some? ==> ':' !in e.epoch.value)
    && (e.release.Some? ==> ':' !in e.release.value)
  }

  lemma BoundReadsBack(e: Evr)
    requires WellPunctuated(e)
    ensures EvrParts(BoundText(e)) == Evr(StatedEpoch(e), e.version, StatedRelease(e))
  {
    var rest := e.version.value + (if Truthy(e.release) then "-" + e.release.value else "");
    var text := BoundText(e);
    if Truthy(e.release) {
      assert rest == e.version.value + ['-'] + e.release.value;
      PartitionAt(e.version.value, '-', e.release.value);
    } else {
      assert rest == e.version.value;
      PartitionWhole(e.version.value, '-');
    }
    if StatedEpoch(e).Some? {
      assert text == e.epoch.value + [':'] + rest;
      PartitionAt(e.epoch.value, ':', rest);
    } else {
      assert text == rest;
      PartitionWhole(rest, ':');
    }
  }

  /** A provided version meets the rendered bound exactly when it compares so with the version repodata stated. */
  lemma BoundMeansVersion(p: Evr, op: Op, e: Evr)
    requires WellPunctuated(e)
    ensures SatisfiesConstraint(Some(p), Some(op), BoundText(e)) <==>
      OpHolds(op, CompareEvr(p.(release := if Truthy(e.release) then p.release else None), e.(release := StatedRelease(e))))
  {
    BoundReadsBack(e);
    var release := if Truthy(e.release) then p.release else None;
    EpochDefault(p.epoch);
    StatedEpochCounts(e);
    ComparesByEpochInt(Evr(OrZero(p.epoch), p.version, release), p.(release := release),
                       Evr(OrZero(StatedEpoch(e)), e.version, StatedRelease(e)), e.(release := StatedRelease(e)));
  }

  lemma StatedEpochCounts(e: Evr)
    ensures EpochInt(OrZero(StatedEpoch(e))) == EpochInt(e.epoch)
  {
    EpochDefault(StatedEpoch(e));
    if StatedEpoch(e) != e.epoch { EpochDefault(e.epoch); }
  }

  lemma ComparesByEpochInt(a: Evr, a': Evr, b: Evr, b': Evr)
    requires EpochInt(a.epoch) == EpochInt(a'.epoch) && a.version == a'.version && a.release == a'.release
    requires EpochInt(b.epoch) == EpochInt(b'.epoch) && b.version == b'.version && b.release == b'.release
    ensures CompareEvr(a, b) == CompareEvr(a', b')
  {
  }
}
