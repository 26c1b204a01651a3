/** Every payload of an image comes from a source build here or from an exception somebody approved. */
module SourcePolicy {
  import opened Options
  import opened TextOrder
  import opened PyText

  // ── Records ──────────────────────────────────────────────────────────

  /** A field of a JSON record: missing, null, a string, or something else. */
  datatype Field = Absent | Null | Text(text: string) | NotText

  /** An exception as it is given, `others` being whatever further keys it has. */
  datatype RawException = RawException(package: Field, kind: Field, reason: Field, source: Field, others: set<string>)

  datatype Exemption = Exemption(package: string, kind: string, reason: string, source: Option<string>)

  datatype Payload = Payload(package: Field, source: Field)

  datatype Count = Count(pinned: nat, source: nat, total: nat)

  datatype Policy = Policy(exceptions: seq<Exemption>, imageSets: seq<string>, schema: int, summary: map<string, Count>)

  /** What a policy is computed from; `kinds` are the kinds of exception there are. */
  datatype Inputs = Inputs(images: map<string, seq<Payload>>, producers: set<string>, kinds: set<string>)

  datatype ExceptionIssue = NoPackage | Repeated | NoKind | UnsupportedKind | NoReason | InvalidSource

  datatype PayloadIssue = Unnamed | Twice | StaleException | WrongSource

  datatype PolicyError =
    | NothingSelected
    | BadException(at: nat, issue: ExceptionIssue)
    | MissingSet(name: string)
    | BadPayload(name: string, at: nat, problem: PayloadIssue)
    | Uncovered(name: string, packages: seq<string>)
    | Unused(stale: seq<string>)
    | UnsupportedSchema(schema: Option<int>)
    | Mismatch

  datatype Result<+T> = Ok(value: T) | Err(error: PolicyError)

  /** `_require_text` accepts it. */
  predicate Readable(f: Field) {
    f.Text? && Strip(f.text) != ""
  }

  /** Text that is not all blanks. */
  lemma ReadableMeans(f: Field)
    ensures Readable(f) <==> f.Text? && exists i :: 0 <= i < |f.text| && !IsSpace(f.text[i])
  {
    if f.Text? { StripsToNothing(f.text); }
  }

  /** There, and not null. */
  predicate Given(f: Field) {
    !f.Absent? && !f.Null?
  }

  // ── Exceptions ───────────────────────────────────────────────────────

  /** What is wrong with one exception, in the order it is looked for. */
  function IssueOf(kinds: set<string>, raws: seq<RawException>, i: nat): Option<ExceptionIssue>
    requires i < |raws|
  {
    var raw := raws[i];
    if !Readable(raw.package) then Some(NoPackage)
    else if exists j :: 0 <= j < i && raws[j].package == raw.package then Some(Repeated)
    else if !Readable(raw.kind) then Some(NoKind)
    else if raw.kind.text !in kinds then Some(UnsupportedKind)
    else if !Readable(raw.reason) then Some(NoReason)
    else if Given(raw.source) && !Readable(raw.source) then Some(InvalidSource)
    else None
  }

  predicate Sound(kinds: set<string>, raws: seq<RawException>) {
    forall i :: 0 <= i < |raws| ==> IssueOf(kinds, raws, i).None?
  }

  /** `m` holds exactly the exceptions of the list, by package. */
  ghost predicate Indexes(raws: seq<RawException>, m: map<string, Exemption>) {
    && (forall i :: 0 <= i < |raws| ==>
          raws[i].package.Text? && raws[i].package.text in m && m[raws[i].package.text] == Entry(raws[i]))
    && (forall k :: k in m ==> m[k].package == k && exists i :: 0 <= i < |raws| && raws[i].package == Text(k))
  }

  /** An exception as it is recorded. */
  function Raw(e: Exemption): RawException {
    RawException(Text(e.package), Text(e.kind), Text(e.reason),
                 if e.source.Some? then Text(e.source.value) else Absent, {})
  }

  function TextOf(f: Field): string {
    if f.Text? then f.text else ""
  }

  function Entry(raw: RawException): Exemption {
    Exemption(TextOf(raw.package), TextOf(raw.kind), TextOf(raw.reason),
              if Given(raw.source) then Some(TextOf(raw.source)) else None)
  }

  /** Exceptions by package. */
  function IndexOf(raws: seq<RawException>): map<string, Exemption> {
    if raws == [] then map[]
    else IndexOf(raws[..|raws| - 1])[TextOf(raws[|raws| - 1].package) := Entry(raws[|raws| - 1])]
  }

  lemma IndexesMore(raws: seq<RawException>, m: map<string, Exemption>, raw: RawException)
    requires Indexes(raws, m) && raw.package.Text? && raw.package.text !in m
    ensures Indexes(raws + [raw], m[raw.package.text := Entry(raw)])
  {
    var more, m' := raws + [raw], m[raw.package.text := Entry(raw)];
    forall k | k in m' ensures m'[k].package == k && exists i :: 0 <= i < |more| && more[i].package == Text(k) {
      if k in m {
        var i :| 0 <= i < |raws| && raws[i].package == Text(k);
        assert more[i] == raws[i];
      } else {
        assert more[|raws|].package == Text(k);
      }
    }
  }

  lemma {:induction false} IndexOfIndexes(kinds: set<string>, raws: seq<RawException>)
    requires Sound(kinds, raws)
    ensures Indexes(raws, IndexOf(raws))
  {
    if raws != [] {
      var n := |raws| - 1;
      var front, raw := raws[..n], raws[n];
      assert raws == front + [raw];
      assert IssueOf(kinds, raws, n).None? && forall i :: 0 <= i < n ==> IssueOf(kinds, raws, i).None?;
      Prefix(kinds, raws, n);
      IndexOfIndexes(kinds, front);
      RepeatedIff(raws, n, IndexOf(front));
      IndexesMore(front, IndexOf(front), raw);
    }
  }

  /** What the index says about the next exception. */
  lemma IndexedSoFar(kinds: set<string>, raws: seq<RawException>, i: nat)
    requires i < |raws| && forall j :: 0 <= j < i ==> IssueOf(kinds, raws, j).None?
    ensures Sound(kinds, raws[..i])
    ensures raws[i].package.Text? ==>
      (raws[i].package.text in IndexOf(raws[..i]) <==> exists j :: 0 <= j < i && raws[j].package == raws[i].package)
    ensures IndexOf(raws[..i + 1]) == IndexOf(raws[..i])[TextOf(raws[i].package) := Entry(raws[i])]
  {
    Prefix(kinds, raws, i);
    IndexOfIndexes(kinds, raws[..i]);
    if raws[i].package.Text? { RepeatedIff(raws, i, IndexOf(raws[..i])); }
    assert raws[..i + 1][..i] == raws[..i] && raws[..i + 1][i] == raws[i];
  }

  method ExceptionIndex(kinds: set<string>, raws: seq<RawException>) returns (r: Result<map<string, Exemption>>)
    ensures r.Ok? <==> Sound(kinds, raws)
    ensures r.Ok? ==> r.value == IndexOf(raws)
    ensures r.Err? ==> r.error.BadException? && r.error.at < |raws| && IssueOf(kinds, raws, r.error.at) == Some(r.error.issue)
                       && Sound(kinds, raws[..r.error.at])
  {
    var indexed: map<string, Exemption> := map[];
    for i := 0 to |raws|
      invariant forall j :: 0 <= j < i ==> IssueOf(kinds, raws, j).None?
      invariant indexed == IndexOf(raws[..i])
    {
      var raw := raws[i];
      ghost var issue := IssueOf(kinds, raws, i);
      IndexedSoFar(kinds, raws, i);
      if !Readable(raw.package) { return Err(BadException(i, NoPackage)); }
      var package := raw.package.text;
      if package in indexed { return Err(BadException(i, Repeated)); }
      if !Readable(raw.kind) { return Err(BadException(i, NoKind)); }
      if raw.kind.text !in kinds { return Err(BadException(i, UnsupportedKind)); }
      if !Readable(raw.reason) { return Err(BadException(i, NoReason)); }
      if Given(raw.source) && !Readable(raw.source) { return Err(BadException(i, InvalidSource)); }
      indexed := indexed[package := Entry(raw)];
    }
    assert raws[..|raws|] == raws;
    return Ok(indexed);
  }

  lemma Prefix(kinds: set<string>, raws: seq<RawException>, n: nat)
    requires n <= |raws| && forall j :: 0 <= j < n ==> IssueOf(kinds, raws, j).None?
    ensures Sound(kinds, raws[..n])
  {
    forall j | 0 <= j < n ensures IssueOf(kinds, raws[..n], j).None? {
      assert IssueOf(kinds, raws, j).None?;
      assert forall k :: 0 <= k < j ==> raws[..n][k] == raws[k];
    }
  }

  lemma RepeatedIff(raws: seq<RawException>, i: nat, indexed: map<string, Exemption>)
    requires i < |raws| && Indexes(raws[..i], indexed) && raws[i].package.Text?
    ensures raws[i].package.text in indexed <==> exists j :: 0 <= j < i && raws[j].package == raws[i].package
  {
    var front := raws[..i];
    if j :| 0 <= j < i && raws[j].package == raws[i].package { assert front[j] == raws[j]; }
    if raws[i].package.text in indexed {
      var j :| 0 <= j < |front| && front[j].package == Text(raws[i].package.text);
      assert raws[j].package == raws[i].package;
    }
  }

  // ── Payloads ─────────────────────────────────────────────────────────

  predicate FromSource(producers: set<string>, p: Payload) {
    p.source.Text? && p.source.text in producers
  }

  /** What becomes of one payload. */
  datatype Verdict = Bad(problem: PayloadIssue) | Built | Uncoverable | Pinned

  function Judge(index: map<string, Exemption>, producers: set<string>, p: Payload, twice: bool): Verdict {
    if !Readable(p.package) then Bad(Unnamed)
    else if twice then Bad(Twice)
    else if FromSource(producers, p) then (if p.package.text in index then Bad(StaleException) else Built)
    else if p.package.text !in index then Uncoverable
    else if index[p.package.text].source.Some? && p.source != Text(index[p.package.text].source.value) then Bad(WrongSource)
    else Pinned
  }

  ghost predicate Repeats(ps: seq<Payload>, i: nat)
    requires i < |ps|
  {
    exists j :: 0 <= j < i && ps[j].package == ps[i].package
  }

  ghost function VerdictAt(index: map<string, Exemption>, producers: set<string>, ps: seq<Payload>, i: nat): Verdict
    requires i < |ps|
  {
    Judge(index, producers, ps[i], Repeats(ps, i))
  }

  predicate IsMissing(index: map<string, Exemption>, producers: set<string>, p: Payload) {
    p.package.Text? && !FromSource(producers, p) && p.package.text !in index
  }

  function SourceCount(producers: set<string>, ps: seq<Payload>): nat {
    if ps == [] then 0
    else SourceCount(producers, ps[..|ps| - 1]) + if FromSource(producers, ps[|ps| - 1]) then 1 else 0
  }

  lemma {:induction false} SourceCountBound(producers: set<string>, ps: seq<Payload>)
    ensures SourceCount(producers, ps) <= |ps|
  {
    if ps != [] { SourceCountBound(producers, ps[..|ps| - 1]); }
  }

  /** Every payload is counted once: built from source, or pinned. */
  function CountOf(producers: set<string>, ps: seq<Payload>): Count {
    SourceCountBound(producers, ps);
    Count(|ps| - SourceCount(producers, ps), SourceCount(producers, ps), |ps|)
  }

  /** The packages that are not built from source. */
  function PinnedOf(producers: set<string>, ps: seq<Payload>): set<string> {
    set p | p in ps && !FromSource(producers, p) && p.package.Text? :: p.package.text
  }

  /** The names of the payloads. */
  function NamesOf(ps: seq<Payload>): set<string> {
    set p | p in ps && p.package.Text? :: p.package.text
  }

  function MissingOf(index: map<string, Exemption>, producers: set<string>, ps: seq<Payload>): set<string> {
    set p | p in ps && IsMissing(index, producers, p) :: p.package.text
  }

  /** Every payload is named, once, and built from source or pinned. */
  ghost predicate SetSound(index: map<string, Exemption>, producers: set<string>, ps: seq<Payload>) {
    forall i :: 0 <= i < |ps| ==>
      VerdictAt(index, producers, ps, i) == Built || VerdictAt(index, producers, ps, i) == Pinned
  }

  /** What is known of the payloads so far. */
  datatype Tally = Tally(seen: set<string>, used: set<string>, missing: set<string>, source: nat, pinned: nat)

  ghost predicate Tallied(index: map<string, Exemption>, producers: set<string>, ps: seq<Payload>, t: Tally) {
    && t.seen == NamesOf(ps)
    && t.missing == MissingOf(index, producers, ps)
    && t.missing + t.used == PinnedOf(producers, ps)
    && t.source == SourceCount(producers, ps)
    && (t.missing == {} ==> t.source + t.pinned == |ps|)
  }

  /** One more payload. */
  lemma OneMorePayload(index: map<string, Exemption>, producers: set<string>, ps: seq<Payload>, p: Payload)
    requires p.package.Text?
    ensures NamesOf(ps + [p]) == NamesOf(ps) + {p.package.text}
    ensures MissingOf(index, producers, ps + [p])
         == MissingOf(index, producers, ps) + (if IsMissing(index, producers, p) then {p.package.text} else {})
    ensures PinnedOf(producers, ps + [p])
         == PinnedOf(producers, ps) + (if FromSource(producers, p) then {} else {p.package.text})
    ensures SourceCount(producers, ps + [p])
         == SourceCount(producers, ps) + (if FromSource(producers, p) then 1 else 0)
  {
    assert (ps + [p])[..|ps|] == ps;
  }

  lemma SeenRepeats(ps: seq<Payload>, i: nat)
    requires i < |ps| && ps[i].package.Text?
    ensures ps[i].package.text in NamesOf(ps[..i]) <==> Repeats(ps, i)
  {
    assert forall j :: 0 <= j < i ==> ps[j] in ps[..i];
    if ps[i].package.text in NamesOf(ps[..i]) {
      var p :| p in ps[..i] && p.package == ps[i].package;
      var j :| 0 <= j < i && ps[..i][j] == p;
      assert ps[j].package == ps[i].package;
    }
  }

  /** Judge one payload and enter it. */
  method Enter(index: map<string, Exemption>, producers: set<string>, p: Payload, t: Tally, ghost ps: seq<Payload>)
    returns (verdict: Verdict, t': Tally)
    requires Tallied(index, producers, ps, t)
    ensures verdict == Judge(index, producers, p, p.package.Text? && p.package.text in t.seen)
    ensures !verdict.Bad? ==> Tallied(index, producers, ps + [p], t')
  {
    t' := t;
    if !Readable(p.package) { return Bad(Unnamed), t; }
    var package := p.package.text;
    OneMorePayload(index, producers, ps, p);
    if package in t.seen { return Bad(Twice), t; }
    t' := t.(seen := t.seen + {package});
    if FromSource(producers, p) {
      if package in index { return Bad(StaleException), t; }
      return Built, t'.(source := t.source + 1);
    }
    if package !in index { return Uncoverable, t'.(missing := t.missing + {package}); }
    if index[package].source.Some? && p.source != Text(index[package].source.value) { return Bad(WrongSource), t; }
    return Pinned, t'.(used := t.used + {package}, pinned := t.pinned + 1);
  }

  method CheckSet(index: map<string, Exemption>, producers: set<string>, name: string, ps: seq<Payload>)
    returns (r: Result<(Count, set<string>)>)
    ensures r.Ok? <==> SetSound(index, producers, ps)
    ensures r.Ok? ==> r.value == (CountOf(producers, ps), PinnedOf(producers, ps))
    ensures r.Err? ==> SetBlamed(index, producers, name, ps, r.error)
  {
    var t := Tally({}, {}, {}, 0, 0);
    for i := 0 to |ps|
      invariant forall j :: 0 <= j < i ==> !VerdictAt(index, producers, ps, j).Bad?
      invariant Tallied(index, producers, ps[..i], t)
    {
      assert ps[..i + 1] == ps[..i] + [ps[i]];
      if ps[i].package.Text? { SeenRepeats(ps, i); }
      ghost var verdictHere := VerdictAt(index, producers, ps, i);
      var verdict, t' := Enter(index, producers, ps[i], t, ps[..i]);
      if verdict.Bad? { return Err(BadPayload(name, i, verdict.problem)); }
      t := t';
    }
    assert ps[..|ps|] == ps;
    if t.missing != {} {
      var listed := SortSet(t.missing);
      MissingBlamed(index, producers, name, ps, listed);
      return Err(Uncovered(name, listed));
    }
    NoneMissing(index, producers, ps, t);
    return Ok((Count(t.pinned, t.source, t.source + t.pinned), t.used));
  }

  lemma NoneMissing(index: map<string, Exemption>, producers: set<string>, ps: seq<Payload>, t: Tally)
    requires Tallied(index, producers, ps, t) && t.missing == {}
    requires forall j :: 0 <= j < |ps| ==> !VerdictAt(index, producers, ps, j).Bad?
    ensures SetSound(index, producers, ps) && t.used == PinnedOf(producers, ps)
    ensures Count(t.pinned, t.source, t.source + t.pinned) == CountOf(producers, ps)
  {
    assert forall p :: p in ps && IsMissing(index, producers, p) ==> p.package.text in t.missing;
    assert forall i :: 0 <= i < |ps| ==> ps[i] in ps && !IsMissing(index, producers, ps[i]);
    assert {} + t.used == t.used;
  }

  lemma MissingBlamed(index: map<string, Exemption>, producers: set<string>, name: string, ps: seq<Payload>,
                      listed: seq<string>)
    requires Ascending(listed) && MissingOf(index, producers, ps) != {}
    requires forall k :: k in listed <==> k in MissingOf(index, producers, ps)
    ensures SetBlamed(index, producers, name, ps, Uncovered(name, listed)) && !SetSound(index, producers, ps)
  {
    var p :| p in ps && IsMissing(index, producers, p);
    assert p.package.text in listed;
    var i :| 0 <= i < |ps| && ps[i] == p;
    assert VerdictAt(index, producers, ps, i) != Built && VerdictAt(index, producers, ps, i) != Pinned;
  }

  /** The error names a payload that is wrong in just that way, or exactly the packages nothing covers. */
  ghost predicate SetBlamed(index: map<string, Exemption>, producers: set<string>, name: string, ps: seq<Payload>,
                            e: PolicyError)
  {
    match e
    case BadPayload(n, at, problem) => n == name && at < |ps| && VerdictAt(index, producers, ps, at) == Bad(problem)
    case Uncovered(n, packages) =>
      && n == name && packages != [] && Ascending(packages)
      && forall k :: k in packages <==> exists p :: p in ps && IsMissing(index, producers, p) && p.package.text == k
    case _ => false
  }

  // ── The policy ───────────────────────────────────────────────────────

  /** Some selected set holds a payload this exception pins. */
  ghost predicate IsUsed(inp: Inputs, sel: seq<string>, package: string) {
    exists n :: n in sel && n in inp.images && package in PinnedOf(inp.producers, inp.images[n])
  }

  /** When a policy can be built. */
  ghost predicate Acceptable(inp: Inputs, raws: seq<RawException>, sel: seq<string>) {
    && sel != [] && Sound(inp.kinds, raws)
    && (forall n :: n in sel ==> n in inp.images && SetSound(IndexOf(raws), inp.producers, inp.images[n]))
    && (forall k :: k in IndexOf(raws) ==> IsUsed(inp, sel, k))
  }

  /** The policy: every exception in order of package, the selected sets in order, and their counts. */
  ghost predicate IsPolicy(inp: Inputs, raws: seq<RawException>, sel: seq<string>, p: Policy) {
    && p.schema == 1
    && Ascending(p.imageSets) && (forall n :: n in p.imageSets <==> n in sel)
    && (forall i, j :: 0 <= i < j < |p.exceptions| ==> Less(p.exceptions[i].package, p.exceptions[j].package))
    && (forall e :: e in p.exceptions <==> e.package in IndexOf(raws) && IndexOf(raws)[e.package] == e)
    && p.summary.Keys == (set n | n in sel)
    && (forall n :: n in sel && n in inp.images ==> p.summary[n] == CountOf(inp.producers, inp.images[n]))
  }

  /** The error names something that is wrong in just that way. */
  ghost predicate Blamed(inp: Inputs, raws: seq<RawException>, sel: seq<string>, e: PolicyError) {
    match e
    case NothingSelected => sel == []
    case BadException(at, issue) => at < |raws| && IssueOf(inp.kinds, raws, at) == Some(issue)
    case MissingSet(n) => n in sel && n !in inp.images
    case Unused(stale) =>
      stale != [] && Ascending(stale) && forall k :: k in stale <==> k in IndexOf(raws) && !IsUsed(inp, sel, k)
    case BadPayload(n, _, _) => n in sel && n in inp.images && SetBlamed(IndexOf(raws), inp.producers, n, inp.images[n], e)
    case Uncovered(n, _) => n in sel && n in inp.images && SetBlamed(IndexOf(raws), inp.producers, n, inp.images[n], e)
    case _ => false
  }

  /** The selected sets, one by one. */
  method CheckSets(inp: Inputs, ghost raws: seq<RawException>, index: map<string, Exemption>, ghost sel: seq<string>,
                   selected: seq<string>)
    returns (r: Result<(map<string, Count>, set<string>)>)
    requires index == IndexOf(raws) && forall n :: n in selected <==> n in sel
    ensures r.Ok? <==>
      forall n :: n in sel ==> n in inp.images && SetSound(index, inp.producers, inp.images[n])
    ensures r.Ok? ==> r.value.0.Keys == set n | n in sel
    ensures r.Ok? ==>
      forall n :: n in sel && n in inp.images ==> n in r.value.0 && r.value.0[n] == CountOf(inp.producers, inp.images[n])
    ensures r.Ok? ==> forall k :: k in r.value.1 <==> IsUsed(inp, sel, k)
    ensures r.Err? ==> Blamed(inp, raws, sel, r.error)
  {
    var summary: map<string, Count> := map[];
    var used: set<string> := {};
    for i := 0 to |selected|
      invariant forall j :: 0 <= j < i ==>
        selected[j] in inp.images && SetSound(index, inp.producers, inp.images[selected[j]])
      invariant summary.Keys == set j | 0 <= j < i :: selected[j]
      invariant forall j :: 0 <= j < i ==> summary[selected[j]] == CountOf(inp.producers, inp.images[selected[j]])
      invariant forall k :: k in used <==> exists j :: 0 <= j < i && k in PinnedOf(inp.producers, inp.images[selected[j]])
    {
      var n := selected[i];
      assert n in selected;
      if n !in inp.images { return Err(MissingSet(n)); }
      var checked := CheckSet(index, inp.producers, n, inp.images[n]);
      if checked.Err? { return Err(checked.error); }
      used := used + checked.value.1;
      summary := summary[n := checked.value.0];
    }
    forall n | n in sel ensures exists j :: 0 <= j < |selected| && selected[j] == n {
      assert n in selected;
    }
    forall k ensures k in used <==> IsUsed(inp, sel, k) {
      if k in used {
        var j :| 0 <= j < |selected| && k in PinnedOf(inp.producers, inp.images[selected[j]]);
        assert selected[j] in selected;
      }
    }
    return Ok((summary, used));
  }

  /** Whatever a sound set pins has an exception. */
  lemma PinnedIsIndexed(index: map<string, Exemption>, producers: set<string>, ps: seq<Payload>, k: string)
    requires SetSound(index, producers, ps) && k in PinnedOf(producers, ps)
    ensures k in index
  {
    var p :| p in ps && !FromSource(producers, p) && p.package.Text? && p.package.text == k;
    var i :| 0 <= i < |ps| && ps[i] == p;
    assert VerdictAt(index, producers, ps, i) == Built || VerdictAt(index, producers, ps, i) == Pinned;
  }

  lemma UsedAreIndexed(inp: Inputs, sel: seq<string>, index: map<string, Exemption>, k: string)
    requires forall n :: n in sel ==> n in inp.images && SetSound(index, inp.producers, inp.images[n])
    requires IsUsed(inp, sel, k)
    ensures k in index
  {
    var n :| n in sel && n in inp.images && k in PinnedOf(inp.producers, inp.images[n]);
    PinnedIsIndexed(index, inp.producers, inp.images[n], k);
  }

  lemma AllUsed(inp: Inputs, sel: seq<string>, index: map<string, Exemption>, used: set<string>)
    requires forall n :: n in sel ==> n in inp.images && SetSound(index, inp.producers, inp.images[n])
    requires (forall k :: k in used <==> IsUsed(inp, sel, k)) && index.Keys - used == {}
    ensures index.Keys == used
  {
    forall k | k in used ensures k in index.Keys { UsedAreIndexed(inp, sel, index, k); }
    forall k | k in index.Keys ensures k in used {
      assert k !in index.Keys - used;
    }
  }

  /** The used exceptions in order of package. */
  method ListExceptions(index: map<string, Exemption>, used: set<string>) returns (listed: seq<Exemption>)
    requires used <= index.Keys && forall k :: k in index ==> index[k].package == k
    ensures forall i, j :: 0 <= i < j < |listed| ==> Less(listed[i].package, listed[j].package)
    ensures forall e :: e in listed <==> e.package in used && index[e.package] == e
  {
    var names := SortSet(used);
    listed := [];
    for i := 0 to |names|
      invariant |listed| == i
      invariant forall j :: 0 <= j < i ==> names[j] in index && listed[j] == index[names[j]]
    {
      assert names[i] in used;
      listed := listed + [index[names[i]]];
    }
    forall e: Exemption | e.package in used && index[e.package] == e ensures e in listed {
      assert e.package in names;
      var j :| 0 <= j < |names| && names[j] == e.package;
      assert listed[j] == e;
    }
    forall e | e in listed ensures e.package in used && index[e.package] == e {
      var j :| 0 <= j < |listed| && listed[j] == e;
      assert names[j] in used;
    }
  }

  lemma SameEmptiness(xs: seq<string>, ys: seq<string>)
    requires forall x :: x in xs <==> x in ys
    ensures xs == [] <==> ys == []
  {
    if xs != [] { assert xs[0] in xs; }
    if ys != [] { assert ys[0] in ys; }
  }

  /** A policy, or the reason there is none. */
  method BuildSourcePolicy(inp: Inputs, raws: seq<RawException>, sel: seq<string>) returns (r: Result<Policy>)
    ensures r.Ok? <==> Acceptable(inp, raws, sel)
    ensures r.Ok? ==> IsPolicy(inp, raws, sel, r.value)
    ensures r.Err? ==> Blamed(inp, raws, sel, r.error)
  {
    var selected := SortSet(set n | n in sel);
    SameEmptiness(sel, selected);
    if selected == [] { return Err(NothingSelected); }
    var indexed := ExceptionIndex(inp.kinds, raws);
    if indexed.Err? { return Err(indexed.error); }
    var index := indexed.value;
    var checked := CheckSets(inp, raws, index, sel, selected);
    if checked.Err? { return Err(checked.error); }
    var (summary, used) := checked.value;
    var stale := SortSet(index.Keys - used);
    if stale != [] {
      assert stale[0] in stale;
      return Err(Unused(stale));
    }
    assert forall k :: k in index.Keys - used ==> k in stale;
    AllUsed(inp, sel, index, used);
    IndexOfIndexes(inp.kinds, raws);
    var exceptions := ListExceptions(index, used);
    return Ok(Policy(exceptions, selected, 1, summary));
  }

  // ── Validating what was recorded ─────────────────────────────────────

  /** Counts as they are recorded; `None` is missing or no number. */
  datatype RawCount = RawCount(pinned: Option<int>, source: Option<int>, total: Option<int>, others: set<string>)

  /** A policy as it is recorded; `None` is missing, or for the schema and the summary something of another kind. */
  datatype Recorded = Recorded(
    exceptions: Option<seq<RawException>>,
    imageSets: Option<seq<string>>,
    schema: Option<int>,
    summary: Option<map<string, RawCount>>,
    others: set<string>)

  function Recounted(c: Count): RawCount {
    RawCount(Some(c.pinned), Some(c.source), Some(c.total), {})
  }

  function RawAll(es: seq<Exemption>): (r: seq<RawException>)
    ensures |r| == |es| && forall i :: 0 <= i < |es| ==> r[i] == Raw(es[i])
  {
    seq(|es|, i requires 0 <= i < |es| => Raw(es[i]))
  }

  /** The record of a policy. */
  function Record(p: Policy): Recorded {
    Recorded(Some(RawAll(p.exceptions)), Some(p.imageSets), Some(p.schema),
             Some(map n | n in p.summary :: Recounted(p.summary[n])), {})
  }

  /** `recorded.get(key, ())` */
  function OrNone<T>(listed: Option<seq<T>>): seq<T> {
    if listed.Some? then listed.value else []
  }

  /** The record is the record of the policy that would be computed from it now. */
  ghost predicate Current(inp: Inputs, rec: Recorded) {
    && Acceptable(inp, OrNone(rec.exceptions), OrNone(rec.imageSets))
    && exists p :: IsPolicy(inp, OrNone(rec.exceptions), OrNone(rec.imageSets), p) && Record(p) == rec
  }

  /** Why a record is refused. */
  ghost predicate Refused(inp: Inputs, rec: Recorded, e: PolicyError) {
    match e
    case UnsupportedSchema(schema) => schema == rec.schema && schema != Some(1)
    case Mismatch => rec.schema == Some(1) && Acceptable(inp, OrNone(rec.exceptions), OrNone(rec.imageSets)) && !Current(inp, rec)
    case _ => rec.schema == Some(1) && Blamed(inp, OrNone(rec.exceptions), OrNone(rec.imageSets), e)
  }

  /** Fail when a recorded policy differs from what the images and producers now give. */
  method ValidateSourcePolicy(inp: Inputs, rec: Recorded) returns (e: Option<PolicyError>)
    ensures e.None? <==> Current(inp, rec)
    ensures e.Some? ==> Refused(inp, rec, e.value)
  {
    if rec.schema != Some(1) { return Some(UnsupportedSchema(rec.schema)); }
    var exceptions, imageSets := OrNone(rec.exceptions), OrNone(rec.imageSets);
    var built := BuildSourcePolicy(inp, exceptions, imageSets);
    if built.Err? { return Some(built.error); }
    if Record(built.value) != rec {
      forall p | IsPolicy(inp, exceptions, imageSets, p) ensures Record(p) != rec {
        PolicyUnique(inp, exceptions, imageSets, built.value, exceptions, imageSets, p);
      }
      return Some(Mismatch);
    }
    return None;
  }

  /** There is one policy, whatever order the exceptions and the selected sets come in. */
  lemma PolicyUnique(inp: Inputs, raws: seq<RawException>, sel: seq<string>, p: Policy,
                     raws': seq<RawException>, sel': seq<string>, p': Policy)
    requires IsPolicy(inp, raws, sel, p) && IsPolicy(inp, raws', sel', p')
    requires IndexOf(raws) == IndexOf(raws') && forall n :: n in sel <==> n in sel'
    requires forall n :: n in sel ==> n in inp.images
    ensures p == p'
  {
    AscendingUnique(p.imageSets, p'.imageSets);
    assert (set n | n in sel) == (set n | n in sel');
    assert p.summary == p'.summary;
    SortedByPackageUnique(p.exceptions, p'.exceptions);
  }

  lemma {:induction false} SortedByPackageUnique(xs: seq<Exemption>, ys: seq<Exemption>)
    requires forall i, j :: 0 <= i < j < |xs| ==> Less(xs[i].package, xs[j].package)
    requires forall i, j :: 0 <= i < j < |ys| ==> Less(ys[i].package, ys[j].package)
    requires forall e :: e in xs <==> e in ys
    ensures xs == ys
  {
    var px, py := seq(|xs|, i requires 0 <= i < |xs| => xs[i].package), seq(|ys|, i requires 0 <= i < |ys| => ys[i].package);
    forall x | x in px ensures x in py {
      var i :| 0 <= i < |px| && px[i] == x;
      assert xs[i] in ys;
      var j :| 0 <= j < |ys| && ys[j] == xs[i];
      assert py[j] == x;
    }
    forall x | x in py ensures x in px {
      var i :| 0 <= i < |py| && py[i] == x;
      assert ys[i] in xs;
      var j :| 0 <= j < |xs| && xs[j] == ys[i];
      assert px[j] == x;
    }
    AscendingUnique(px, py);
    assert |px| == |xs| && |py| == |ys|;
    forall i | 0 <= i < |xs| ensures xs[i] == ys[i] {
      assert xs[i] in ys;
      var j :| 0 <= j < |ys| && ys[j] == xs[i];
      assert px[i] == py[i] == xs[i].package && py[j] == xs[i].package;
      LessIrreflexive(py[i]);
    }
  }

  // ── The order of the exceptions does not matter ──────────────────────

  /** No two exceptions are for the same package. */
  ghost predicate Apart(raws: seq<RawException>) {
    forall i, j :: 0 <= i < j < |raws| ==> raws[i].package != raws[j].package
  }

  lemma SoundIsApart(kinds: set<string>, raws: seq<RawException>)
    requires Sound(kinds, raws)
    ensures Apart(raws)
  {
    forall i, j | 0 <= i < j < |raws| ensures raws[i].package != raws[j].package {
      assert IssueOf(kinds, raws, j).None?;
    }
  }

  /** Sound whatever else is listed. */
  predicate SoundAlone(kinds: set<string>, raw: RawException) {
    && Readable(raw.package) && Readable(raw.kind) && raw.kind.text in kinds && Readable(raw.reason)
    && (Given(raw.source) ==> Readable(raw.source))
  }

  /** Soundness asks only that exceptions are apart and each sound by itself. */
  lemma SoundIff(kinds: set<string>, raws: seq<RawException>)
    ensures Sound(kinds, raws) <==> Apart(raws) && forall i :: 0 <= i < |raws| ==> SoundAlone(kinds, raws[i])
  {
    if Sound(kinds, raws) {
      SoundIsApart(kinds, raws);
      forall i | 0 <= i < |raws| ensures SoundAlone(kinds, raws[i]) {
        assert IssueOf(kinds, raws, i).None?;
      }
    }
  }

  lemma SoundElsewhere(kinds: set<string>, raws: seq<RawException>, raws': seq<RawException>)
    requires Sound(kinds, raws) && Apart(raws') && forall r :: r in raws' ==> r in raws
    ensures Sound(kinds, raws')
  {
    SoundIff(kinds, raws);
    SoundIff(kinds, raws');
    assert forall i :: 0 <= i < |raws'| ==> raws'[i] in raws;
  }

  lemma SameIndex(kinds: set<string>, raws: seq<RawException>, raws': seq<RawException>)
    requires Sound(kinds, raws) && Sound(kinds, raws') && forall r :: r in raws <==> r in raws'
    ensures IndexOf(raws) == IndexOf(raws')
  {
    IndexOfIndexes(kinds, raws);
    IndexOfIndexes(kinds, raws');
    IndexWithin(raws, IndexOf(raws), raws', IndexOf(raws'));
    IndexWithin(raws', IndexOf(raws'), raws, IndexOf(raws));
  }

  lemma IndexWithin(raws: seq<RawException>, m: map<string, Exemption>, raws': seq<RawException>, m': map<string, Exemption>)
    requires Indexes(raws, m) && Indexes(raws', m') && forall r :: r in raws ==> r in raws'
    ensures forall k :: k in m ==> k in m' && m[k] == m'[k]
  {
    forall k | k in m ensures k in m' && m[k] == m'[k] {
      var i :| 0 <= i < |raws| && raws[i].package == Text(k);
      assert raws[i] in raws';
      var j :| 0 <= j < |raws'| && raws'[j] == raws[i];
    }
  }

  lemma {:induction false} OncePlace(xs: seq<RawException>, i: nat, j: nat)
    requires i < j < |xs| && xs[i] == xs[j]
    ensures multiset(xs)[xs[i]] >= 2
  {
    assert xs == xs[..j] + xs[j..];
    assert xs[i] in xs[..j] && xs[j..][0] == xs[j];
    assert xs[j] in xs[j..];
    assert multiset(xs[..j])[xs[i]] >= 1 && multiset(xs[j..])[xs[i]] >= 1;
  }

  lemma {:induction false} TwoPlaces(xs: seq<RawException>, x: RawException)
    requires multiset(xs)[x] >= 2
    ensures exists i, j :: 0 <= i < j < |xs| && xs[i] == x && xs[j] == x
  {
    assert x in xs;
    var i :| 0 <= i < |xs| && xs[i] == x;
    assert xs == xs[..i] + [xs[i]] + xs[i + 1..];
    if x in xs[..i] {
      var j :| 0 <= j < i && xs[..i][j] == x;
      assert xs[j] == x;
    } else {
      assert multiset(xs[..i])[x] == 0 && multiset([xs[i]])[x] == 1;
      assert x in multiset(xs[i + 1..]);
      var j :| 0 <= j < |xs[i + 1..]| && xs[i + 1..][j] == x;
      assert xs[i + 1 + j] == x;
    }
  }

  /** A rearrangement of sound exceptions is sound. */
  lemma RearrangedIsSound(kinds: set<string>, raws: seq<RawException>, raws': seq<RawException>)
    requires Sound(kinds, raws) && multiset(raws) == multiset(raws')
    ensures Sound(kinds, raws') && IndexOf(raws) == IndexOf(raws')
  {
    SoundIsApart(kinds, raws);
    assert forall r :: r in raws <==> r in multiset(raws);
    assert forall r :: r in raws' <==> r in multiset(raws');
    forall i, j | 0 <= i < j < |raws'| ensures raws'[i].package != raws'[j].package {
      if raws'[i] == raws'[j] {
        OncePlace(raws', i, j);
        TwoPlaces(raws, raws'[i]);
        assert false;
      } else {
        assert raws'[i] in raws && raws'[j] in raws;
        var a :| 0 <= a < |raws| && raws[a] == raws'[i];
        var b :| 0 <= b < |raws| && raws[b] == raws'[j];
        assert a < b || b < a;
      }
    }
    SoundElsewhere(kinds, raws, raws');
    SameIndex(kinds, raws, raws');
  }

  /** Neither whether there is a policy nor which one depends on the order of exceptions or of the selection. */
  lemma PolicyIgnoresOrder(inp: Inputs, raws: seq<RawException>, sel: seq<string>,
                           raws': seq<RawException>, sel': seq<string>)
    requires multiset(raws) == multiset(raws') && forall n :: n in sel <==> n in sel'
    ensures Acceptable(inp, raws, sel) <==> Acceptable(inp, raws', sel')
    ensures Acceptable(inp, raws, sel) ==>
      forall p, p' :: IsPolicy(inp, raws, sel, p) && IsPolicy(inp, raws', sel', p') ==> p == p'
  {
    if Acceptable(inp, raws, sel) { AcceptableElsewhere(inp, raws, sel, raws', sel'); }
    if Acceptable(inp, raws', sel') { AcceptableElsewhere(inp, raws', sel', raws, sel); }
    if Acceptable(inp, raws, sel) {
      RearrangedIsSound(inp.kinds, raws, raws');
      forall p, p' | IsPolicy(inp, raws, sel, p) && IsPolicy(inp, raws', sel', p') ensures p == p' {
        PolicyUnique(inp, raws, sel, p, raws', sel', p');
      }
    }
  }

  lemma AcceptableElsewhere(inp: Inputs, raws: seq<RawException>, sel: seq<string>,
                            raws': seq<RawException>, sel': seq<string>)
    requires Acceptable(inp, raws, sel)
    requires multiset(raws) == multiset(raws') && forall n :: n in sel <==> n in sel'
    ensures Acceptable(inp, raws', sel')
  {
    RearrangedIsSound(inp.kinds, raws, raws');
    AcceptableWith(inp, raws, sel, raws', sel');
  }

  /** What is acceptable depends on the exceptions only by their index, and on the selection as a set. */
  lemma AcceptableWith(inp: Inputs, raws: seq<RawException>, sel: seq<string>, raws': seq<RawException>, sel': seq<string>)
    requires Acceptable(inp, raws, sel) && Sound(inp.kinds, raws')
    requires IndexOf(raws) == IndexOf(raws') && forall n :: n in sel <==> n in sel'
    ensures Acceptable(inp, raws', sel')
  {
    SameEmptiness(sel, sel');
    SameUse(inp, raws, sel, sel');
  }

  lemma PolicyWith(inp: Inputs, raws: seq<RawException>, sel: seq<string>, p: Policy,
                   raws': seq<RawException>, sel': seq<string>)
    requires IsPolicy(inp, raws, sel, p)
    requires IndexOf(raws) == IndexOf(raws') && forall n :: n in sel <==> n in sel'
    ensures IsPolicy(inp, raws', sel', p)
  {
    assert (set n | n in sel) == (set n | n in sel');
  }

  lemma SameUse(inp: Inputs, raws: seq<RawException>, sel: seq<string>, sel': seq<string>)
    requires (forall n :: n in sel <==> n in sel') && forall k :: k in IndexOf(raws) ==> IsUsed(inp, sel, k)
    ensures forall k :: k in IndexOf(raws) ==> IsUsed(inp, sel', k)
  {
    forall k | k in IndexOf(raws) ensures IsUsed(inp, sel', k) {
      var n :| n in sel && n in inp.images && k in PinnedOf(inp.producers, inp.images[n]);
      assert n in sel';
    }
  }

  // ── What a policy says ───────────────────────────────────────────────

  /** A policy that was built re-validates against the same images and producers. */
  lemma BuiltRevalidates(inp: Inputs, raws: seq<RawException>, sel: seq<string>, p: Policy)
    requires Acceptable(inp, raws, sel) && IsPolicy(inp, raws, sel, p)
    ensures Current(inp, Record(p))
  {
    var rec := Record(p);
    var exceptions, imageSets := OrNone(rec.exceptions), OrNone(rec.imageSets);
    RecordedIsSound(inp, raws, sel, p);
    RecordedIndex(inp, raws, sel, p);
    AcceptableWith(inp, raws, sel, exceptions, imageSets);
    PolicyWith(inp, raws, sel, p, exceptions, imageSets);
  }

  /** What is recorded of sound exceptions is sound. */
  lemma RecordedIsSound(inp: Inputs, raws: seq<RawException>, sel: seq<string>, p: Policy)
    requires Acceptable(inp, raws, sel) && IsPolicy(inp, raws, sel, p)
    ensures Sound(inp.kinds, RawAll(p.exceptions))
  {
    var recorded := RawAll(p.exceptions);
    forall j | 0 <= j < |recorded| ensures SoundAlone(inp.kinds, recorded[j]) {
      assert p.exceptions[j] in p.exceptions;
      RawIsSound(inp.kinds, raws, p.exceptions[j]);
    }
    forall i, j | 0 <= i < j < |recorded| ensures recorded[i].package != recorded[j].package {
      LessIrreflexive(p.exceptions[i].package);
    }
    SoundIff(inp.kinds, recorded);
  }

  /** And it indexes as they do. */
  lemma RecordedIndex(inp: Inputs, raws: seq<RawException>, sel: seq<string>, p: Policy)
    requires IsPolicy(inp, raws, sel, p) && Sound(inp.kinds, raws) && Sound(inp.kinds, RawAll(p.exceptions))
    ensures IndexOf(RawAll(p.exceptions)) == IndexOf(raws)
  {
    IndexOfIndexes(inp.kinds, raws);
    IndexOfIndexes(inp.kinds, RawAll(p.exceptions));
    SameEntries(p.exceptions, RawAll(p.exceptions), IndexOf(raws), IndexOf(RawAll(p.exceptions)));
  }

  lemma SameEntries(es: seq<Exemption>, recorded: seq<RawException>, m: map<string, Exemption>, m': map<string, Exemption>)
    requires recorded == RawAll(es) && Indexes(recorded, m')
    requires forall e :: e in es <==> e.package in m && m[e.package] == e
    requires forall k :: k in m ==> m[k].package == k
    ensures m == m'
  {
    forall k | k in m ensures k in m' && m'[k] == m[k] {
      var j :| 0 <= j < |es| && es[j] == m[k];
      EntryOfRaw(es[j]);
      assert recorded[j].package == Text(k);
    }
    forall k | k in m' ensures k in m {
      var j :| 0 <= j < |recorded| && recorded[j].package == Text(k);
      assert es[j] in es;
    }
  }

  lemma EntryOfRaw(e: Exemption)
    ensures Entry(Raw(e)) == e
  {
  }

  lemma RawIsSound(kinds: set<string>, raws: seq<RawException>, e: Exemption)
    requires Sound(kinds, raws) && e.package in IndexOf(raws) && IndexOf(raws)[e.package] == e
    ensures SoundAlone(kinds, Raw(e))
  {
    IndexOfIndexes(kinds, raws);
    SoundIff(kinds, raws);
    EntryOf(raws, IndexOf(raws), e);
    var i :| 0 <= i < |raws| && e == Entry(raws[i]);
    EntryIsSound(kinds, raws[i]);
  }

  lemma EntryOf(raws: seq<RawException>, m: map<string, Exemption>, e: Exemption)
    requires Indexes(raws, m) && e.package in m && m[e.package] == e
    ensures exists i :: 0 <= i < |raws| && e == Entry(raws[i])
  {
    var i :| 0 <= i < |raws| && raws[i].package == Text(e.package);
    assert e == Entry(raws[i]);
  }

  lemma EntryIsSound(kinds: set<string>, raw: RawException)
    requires SoundAlone(kinds, raw)
    ensures SoundAlone(kinds, Raw(Entry(raw)))
  {
  }

  /** An exception answers for a payload: right package, and right source if it names one. */
  predicate AnswersFor(e: Exemption, p: Payload) {
    p.package == Text(e.package) && (e.source.Some? ==> p.source == Text(e.source.value))
  }

  /**
   * In a built policy each payload of a selected set is, exclusively, built
   * from source with no exception or pinned by the one exception for it; and
   * the counts add up to the payloads.
   */
  lemma EachPayloadOnce(inp: Inputs, raws: seq<RawException>, sel: seq<string>, p: Policy, n: string, i: nat)
    requires Acceptable(inp, raws, sel) && IsPolicy(inp, raws, sel, p)
    requires n in sel && i < |inp.images[n]|
    ensures var x := inp.images[n][i];
      && (FromSource(inp.producers, x) <==> forall e :: e in p.exceptions ==> Text(e.package) != x.package)
      && (!FromSource(inp.producers, x) <==> exists e :: e in p.exceptions && AnswersFor(e, x))
      && (forall j :: 0 <= j < |inp.images[n]| && j != i ==> inp.images[n][j].package != x.package)
    ensures n in p.summary && p.summary[n].total == |inp.images[n]|
    ensures p.summary[n].source + p.summary[n].pinned == p.summary[n].total
  {
    var ps, index := inp.images[n], IndexOf(raws);
    var x := ps[i];
    IndexOfIndexes(inp.kinds, raws);
    assert SetSound(index, inp.producers, ps);
    assert VerdictAt(index, inp.producers, ps, i) == Built || VerdictAt(index, inp.producers, ps, i) == Pinned;
    if !FromSource(inp.producers, x) {
      assert AnswersFor(index[x.package.text], x) && index[x.package.text] in p.exceptions;
    }
    forall j | 0 <= j < |ps| && j != i ensures ps[j].package != x.package {
      assert VerdictAt(index, inp.producers, ps, j) == Built || VerdictAt(index, inp.producers, ps, j) == Pinned;
      assert j < i ==> !Repeats(ps, i);
      assert i < j ==> !Repeats(ps, j);
    }
  }

  /** The payloads whose source is built here. */
  ghost function BuiltAt(producers: set<string>, ps: seq<Payload>): set<int> {
    set i | 0 <= i < |ps| && ps[i].source.Text? && ps[i].source.text in producers
  }

  lemma {:induction false} SourceCountIs(producers: set<string>, ps: seq<Payload>)
    ensures SourceCount(producers, ps) == |BuiltAt(producers, ps)|
  {
    if ps != [] {
      var n := |ps| - 1;
      var front := ps[..n];
      SourceCountIs(producers, front);
      assert forall i :: 0 <= i < n ==> front[i] == ps[i];
      assert BuiltAt(producers, ps) == BuiltAt(producers, front) + if FromSource(producers, ps[n]) then {n} else {};
    }
  }

  /** The counts of a built policy: payloads built here, the others, and all. */
  lemma CountsAreTrue(inp: Inputs, raws: seq<RawException>, sel: seq<string>, p: Policy, n: string)
    requires Acceptable(inp, raws, sel) && IsPolicy(inp, raws, sel, p) && n in sel
    ensures n in p.summary && var ps := inp.images[n];
      && p.summary[n].source == |BuiltAt(inp.producers, ps)|
      && p.summary[n].total == |ps|
      && p.summary[n].pinned == |ps| - |BuiltAt(inp.producers, ps)|
  {
    SourceCountIs(inp.producers, inp.images[n]);
  }

  /** Every exception of a built policy pins a payload of a selected set. */
  lemma EveryExceptionIsUsed(inp: Inputs, raws: seq<RawException>, sel: seq<string>, p: Policy, e: Exemption)
    requires Acceptable(inp, raws, sel) && IsPolicy(inp, raws, sel, p) && e in p.exceptions
    ensures exists n, i :: n in sel && 0 <= i < |inp.images[n]|
              && AnswersFor(e, inp.images[n][i]) && !FromSource(inp.producers, inp.images[n][i])
  {
    assert IsUsed(inp, sel, e.package);
    var n :| n in sel && n in inp.images && e.package in PinnedOf(inp.producers, inp.images[n]);
    var ps := inp.images[n];
    var x :| x in ps && !FromSource(inp.producers, x) && x.package.Text? && x.package.text == e.package;
    var i :| 0 <= i < |ps| && ps[i] == x;
    assert VerdictAt(IndexOf(raws), inp.producers, ps, i) == Built || VerdictAt(IndexOf(raws), inp.producers, ps, i) == Pinned;
    assert AnswersFor(e, ps[i]);
  }
}
