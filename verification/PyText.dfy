/** The few Python string operations the solver's text handling rests on. */
module PyText {
  import opened Options

  /** `str.isspace`, for one character. */
  predicate IsSpace(c: char) {
    || '\t' <= c <= '\r' || '\U{1c}' <= c <= ' '
    || c == '\U{85}' || c == '\U{a0}' || c == '\U{1680}' || '\U{2000}' <= c <= '\U{200a}'
    || c == '\U{2028}' || c == '\U{2029}' || c == '\U{202f}' || c == '\U{205f}' || c == '\U{3000}'
  }

  function LStrip(s: string): (r: string)
    ensures |r| <= |s| && (r != "" ==> !IsSpace(r[0]))
  {
    if s != "" && IsSpace(s[0]) then LStrip(s[1..]) else s
  }

  function RStrip(s: string): (r: string)
    ensures |r| <= |s| && r == s[..|r|] && (r != "" ==> !IsSpace(r[|r| - 1]))
  {
    if s != "" && IsSpace(s[|s| - 1]) then RStrip(s[..|s| - 1]) else s
  }

  /** `s.strip()` */
  function Strip(s: string): (r: string)
    ensures |r| <= |s|
    ensures r != "" ==> !IsSpace(r[0]) && !IsSpace(r[|r| - 1])
  {
    RStrip(LStrip(s))
  }

  /** Only blanks strip to nothing. */
  lemma {:induction false} StripsToNothing(s: string)
    ensures Strip(s) == "" <==> forall i :: 0 <= i < |s| ==> IsSpace(s[i])
  {
    if s != "" && IsSpace(s[0]) {
      StripsToNothing(s[1..]);
      assert forall i :: 0 <= i < |s[1..]| ==> s[1..][i] == s[i + 1];
    } else if s != "" {
      KeepsFirst(s);
    }
  }

  lemma {:induction false} KeepsFirst(s: string)
    requires s != "" && !IsSpace(s[0])
    ensures RStrip(s) != ""
  {
    if IsSpace(s[|s| - 1]) { KeepsFirst(s[..|s| - 1]); }
  }

  /** Nothing to strip: not a blank at either end. */
  predicate Trimmed(s: string) {
    s != "" ==> !IsSpace(s[0]) && !IsSpace(s[|s| - 1])
  }

  lemma StripTrimmed(s: string)
    ensures Strip(s) == s <==> Trimmed(s)
  {
  }

  /** `s.find(t)`, with `None` for -1. */
  function Find(s: string, t: string): (r: Option<nat>)
    ensures r.Some? ==> r.value + |t| <= |s| && s[r.value..r.value + |t|] == t
  {
    if t <= s then Some(0)
    else if s == "" then None
    else
      var rest := Find(s[1..], t);
      if rest.None? then None
      else
        assert s[1..][rest.value..rest.value + |t|] == s[rest.value + 1..rest.value + 1 + |t|];
        Some(rest.value + 1)
  }

  ghost predicate Stands(s: string, t: string, i: nat) {
    i + |t| <= |s| && s[i..i + |t|] == t
  }

  /** What stands in a part stands in the whole, and the other way round. */
  lemma StandsWithin(x: string, y: string, z: string, t: string, i: nat)
    requires i + |t| <= |y|
    ensures Stands(x + y + z, t, |x| + i) <==> Stands(y, t, i)
  {
    assert (x + y + z)[|x| + i..|x| + i + |t|] == y[i..i + |t|];
  }

  /** `find` gives the first place where a text stands, if there is one. */
  lemma {:induction false} FindFirst(s: string, t: string)
    ensures Find(s, t).Some? <==> exists i: nat :: Stands(s, t, i)
    ensures Find(s, t).Some? ==> Stands(s, t, Find(s, t).value) && forall i: nat :: Stands(s, t, i) ==> Find(s, t).value <= i
  {
    if t <= s {
      assert Stands(s, t, 0);
    } else if s != "" {
      FindFirst(s[1..], t);
      forall i: nat | Stands(s, t, i) ensures i > 0 && Stands(s[1..], t, i - 1) {
        assert i == 0 ==> t <= s;
        assert s[1..][i - 1..i - 1 + |t|] == s[i..i + |t|];
      }
      forall j: nat | Stands(s[1..], t, j) ensures Stands(s, t, j + 1) {
        assert s[1..][j..j + |t|] == s[j + 1..j + 1 + |t|];
      }
    }
  }

  /** What comes before the first `c` and, if there is one, what comes after. */
  function Partition(s: string, c: char): (r: (string, Option<string>))
    ensures r.1.None? ==> r.0 == s && c !in s
    ensures r.1.Some? ==> s == r.0 + [c] + r.1.value && c !in r.0
  {
    if s == "" then ("", None)
    else if s[0] == c then
      assert s == [c] + s[1..];
      ("", Some(s[1..]))
    else
      var rest := Partition(s[1..], c);
      assert s == [s[0]] + s[1..];
      ([s[0]] + rest.0, rest.1)
  }

  /** `sep.join(parts)` */
  function Join(parts: seq<string>, sep: string): string {
    if parts == [] then ""
    else if |parts| == 1 then parts[0]
    else parts[0] + sep + Join(parts[1..], sep)
  }

  lemma JoinPair(a: string, b: string, sep: string)
    ensures Join([a, b], sep) == a + sep + b
  {
    assert [a, b][1..] == [b];
  }
}
