/** Python's ordering of strings, and the sorted lists built from it. */
module TextOrder {

  /** `a < b` for Python strings: code point by code point, a proper prefix first. */
  predicate Less(a: string, b: string) {
    if b == "" then false
    else if a == "" then true
    else a[0] < b[0] || (a[0] == b[0] && Less(a[1..], b[1..]))
  }

  /** Where two strings first differ the smaller character decides, and a proper prefix comes first. */
  lemma {:induction false} LessIff(a: string, b: string)
    ensures Less(a, b) <==>
      exists n :: 0 <= n <= |a| && n < |b| && a[..n] == b[..n] && (n == |a| || a[n] < b[n])
  {
    if a == "" || b == "" {
      if b != "" { assert a[..0] == b[..0]; }
    } else if a[0] == b[0] {
      LessIff(a[1..], b[1..]);
      if n :| 0 <= n <= |a[1..]| && n < |b[1..]| && a[1..][..n] == b[1..][..n] && (n == |a[1..]| || a[1..][n] < b[1..][n]) {
        assert a[..n + 1] == [a[0]] + a[1..][..n] && b[..n + 1] == [b[0]] + b[1..][..n];
        assert n + 1 == |a| || a[n + 1] < b[n + 1];
      }
      if n :| 0 <= n <= |a| && n < |b| && a[..n] == b[..n] && (n == |a| || a[n] < b[n]) {
        assert n > 0;
        assert a[1..][..n - 1] == a[..n][1..] && b[1..][..n - 1] == b[..n][1..];
        assert n - 1 == |a[1..]| || a[1..][n - 1] < b[1..][n - 1];
      }
    } else {
      assert a[..0] == b[..0];
      forall n | 0 < n <= |a| && n < |b| ensures a[..n] != b[..n] {
        assert a[..n][0] == a[0] && b[..n][0] == b[0];
      }
    }
  }

  lemma {:induction false} LessTotal(a: string, b: string)
    ensures a == b || Less(a, b) || Less(b, a)
  {
    if a != "" && b != "" && a[0] == b[0] {
      LessTotal(a[1..], b[1..]);
      assert a == [a[0]] + a[1..] && b == [b[0]] + b[1..];
    }
  }

  lemma {:induction false} LessTransitive(a: string, b: string, c: string)
    requires Less(a, b) && Less(b, c)
    ensures Less(a, c)
  {
    if a != "" && a[0] == b[0] == c[0] {
      LessTransitive(a[1..], b[1..], c[1..]);
    }
  }

  lemma {:induction false} LessIrreflexive(a: string)
    ensures !Less(a, a)
  {
    if a != "" { LessIrreflexive(a[1..]); }
  }

  /** Ascending without repeats: what `sorted(set(...))` returns. */
  ghost predicate Ascending(xs: seq<string>) {
    forall i, j :: 0 <= i < j < |xs| ==> Less(xs[i], xs[j])
  }

  /** Put one string where it belongs in an ascending list. */
  function Insert(x: string, xs: seq<string>): (r: seq<string>)
    ensures forall y :: y in r <==> y == x || y in xs
  {
    if xs == [] then [x]
    else if x == xs[0] then xs
    else if Less(x, xs[0]) then [x] + xs
    else
      assert xs == [xs[0]] + xs[1..];
      [xs[0]] + Insert(x, xs[1..])
  }

  lemma {:induction false} InsertAscending(x: string, xs: seq<string>)
    requires Ascending(xs)
    ensures Ascending(Insert(x, xs))
  {
    if xs == [] {
    } else if x == xs[0] {
    } else if Less(x, xs[0]) {
      forall j | 0 <= j < |xs| ensures Less(x, xs[j]) {
        if j > 0 { LessTransitive(x, xs[0], xs[j]); }
      }
    } else {
      LessTotal(x, xs[0]);
      InsertAscending(x, xs[1..]);
      var tail := Insert(x, xs[1..]);
      forall j | 0 <= j < |tail| ensures Less(xs[0], tail[j]) {
        assert tail[j] in tail;
      }
    }
  }

  /** `sorted(set(xs))`. */
  function Sorted(xs: seq<string>): (r: seq<string>)
    ensures forall y :: y in r <==> y in xs
  {
    if xs == [] then []
    else
      assert xs == [xs[0]] + xs[1..];
      Insert(xs[0], Sorted(xs[1..]))
  }

  lemma {:induction false} SortedAscending(xs: seq<string>)
    ensures Ascending(Sorted(xs))
  {
    if xs != [] {
      SortedAscending(xs[1..]);
      InsertAscending(xs[0], Sorted(xs[1..]));
    }
  }

  /** An ascending list is determined by its elements, so sorting a set has one answer. */
  lemma {:induction false} AscendingUnique(xs: seq<string>, ys: seq<string>)
    requires Ascending(xs) && Ascending(ys)
    requires forall x :: x in xs <==> x in ys
    ensures xs == ys
  {
    assert xs != [] ==> xs[0] in ys;
    assert ys != [] ==> ys[0] in xs;
    if xs != [] && ys != [] {
      FirstIsLeast(xs, ys);
      forall x | x in xs[1..] ensures x in ys[1..] { DropFirst(xs, ys, x); }
      forall x | x in ys[1..] ensures x in xs[1..] { DropFirst(ys, xs, x); }
      AscendingUnique(xs[1..], ys[1..]);
      assert xs == [xs[0]] + xs[1..] && ys == [ys[0]] + ys[1..];
    }
  }

  lemma FirstIsLeast(xs: seq<string>, ys: seq<string>)
    requires xs != [] && ys != [] && Ascending(xs) && Ascending(ys)
    requires forall x :: x in xs <==> x in ys
    ensures xs[0] == ys[0]
  {
    assert xs[0] in ys && ys[0] in xs;
    var i :| 0 <= i < |ys| && ys[i] == xs[0];
    var j :| 0 <= j < |xs| && xs[j] == ys[0];
    if i > 0 && j > 0 {
      LessTransitive(xs[0], xs[j], xs[0]);
      LessIrreflexive(xs[0]);
    }
  }

  lemma DropFirst(xs: seq<string>, ys: seq<string>, x: string)
    requires xs != [] && ys != [] && xs[0] == ys[0] && Ascending(xs)
    requires forall y :: y in xs <==> y in ys
    requires x in xs[1..]
    ensures x in ys[1..]
  {
    var i :| 0 <= i < |xs[1..]| && xs[1..][i] == x;
    assert Less(xs[0], xs[i + 1]);
    LessIrreflexive(x);
    assert x in xs && x in ys;
  }

  /** `sorted(s)` for a set. */
  method SortSet(s: set<string>) returns (xs: seq<string>)
    ensures Ascending(xs)
    ensures forall x :: x in xs <==> x in s
  {
    xs := [];
    var rest := s;
    while rest != {}
      invariant rest <= s && Ascending(xs)
      invariant forall x :: x in xs <==> x in s && x !in rest
      decreases rest
    {
      var x :| x in rest;
      InsertAscending(x, xs);
      xs := Insert(x, xs);
      rest := rest - {x};
    }
  }
}
