/** Division rounding up, and where the `i`-th of evenly grouped items lands. */
module CeilArithmetic {

  /** How many groups of `h` it takes to hold `n` items. */
  function CeilDiv(n: nat, h: nat): nat
    requires h > 0
    decreases n
  {
    if n == 0 then 0 else if n <= h then 1 else 1 + CeilDiv(n - h, h)
  }

  lemma {:induction false} CeilBounds(n: nat, h: nat)
    requires h >= 2
    ensures n >= 2 ==> CeilDiv(n, h) < n
    ensures n >= 1 ==> 1 <= CeilDiv(n, h) <= n
    decreases n
  {
    if n > h { CeilBounds(n - h, h); }
  }

  lemma MulAtLeast(a: int, b: int, h: nat)
    requires a >= b
    ensures a * h >= b * h
  {
    assert (a - b) * h >= 0;
  }

  lemma MulStep(q: int, h: int)
    ensures (q + 1) * h == q * h + h
  {
  }

  /** The rounded-up quotient is the least number of groups that suffices. */
  lemma {:induction false} CeilBracket(n: nat, h: nat)
    requires h > 0
    ensures var q := CeilDiv(n, h);
      n <= q * h && (n > 0 ==> (q - 1) * h < n)
    decreases n
  {
    if n > h {
      CeilBracket(n - h, h);
      var q := CeilDiv(n - h, h);
      MulStep(q, h);
      MulStep(q - 1, h);
    }
  }

  lemma CeilUnique(n: nat, h: nat, q: int)
    requires h > 0 && n > 0 && n <= q * h && (q - 1) * h < n
    ensures CeilDiv(n, h) == q
  {
    var c := CeilDiv(n, h);
    CeilBracket(n, h);
    if c < q { MulAtLeast(q - 1, c, h); }
    if q < c { MulAtLeast(c - 1, q, h); }
  }

  /** It is the `(n + h - 1) / h` of integer arithmetic. */
  lemma CeilIsDivision(n: nat, h: nat)
    requires h > 0
    ensures CeilDiv(n, h) == (n + h - 1) / h
  {
    var q := (n + h - 1) / h;
    if n == 0 {
      DivideUnique(h - 1, h, 0, h - 1);
    } else {
      assert n + h - 1 == h * q + (n + h - 1) % h;
      Commute(q, h);
      MulStep(q - 1, h);
      CeilUnique(n, h, q);
    }
  }

  lemma Commute(a: int, b: int)
    ensures a * b == b * a
  {
  }

  lemma ComposeUpper(n: int, p: int, q: int, a: nat, b: nat)
    requires n <= p * a && p <= q * b
    ensures n <= q * (a * b)
  {
    MulAtLeast(q * b, p, a);
    Associate(q, b, a);
    Commute(a, b);
  }

  lemma ComposeLower(n: int, p: int, q: int, a: nat, b: nat)
    requires (p - 1) * a < n && (q - 1) * b < p
    ensures (q - 1) * (a * b) < n
  {
    MulAtLeast(p - 1, (q - 1) * b, a);
    Associate(q - 1, b, a);
    Commute(a, b);
  }

  /** Grouping groups is grouping by the product. */
  lemma CeilCompose(n: nat, a: nat, b: nat)
    requires a > 0 && b > 0
    ensures a * b > 0 && CeilDiv(CeilDiv(n, a), b) == CeilDiv(n, a * b)
  {
    Positive(a, b);
    if n > 0 {
      var p := CeilDiv(n, a);
      CeilBracket(n, a);
      AtLeastOne(n, a);
      CeilBracket(p, b);
      var q := CeilDiv(p, b);
      ComposeUpper(n, p, q, a, b);
      ComposeLower(n, p, q, a, b);
      CeilUnique(n, a * b, q);
    }
  }

  lemma AtLeastOne(n: nat, h: nat)
    requires n > 0 && h > 0
    ensures CeilDiv(n, h) > 0
  {
  }

  lemma Positive(a: nat, b: nat)
    requires a > 0 && b > 0
    ensures a * b > 0
  {
    MulAtLeast(a, 1, b);
  }

  lemma Associate(a: int, b: int, c: int)
    ensures a * b * c == a * (b * c)
  {
  }

  lemma DivideUnique(i: nat, h: nat, q: int, r: int)
    requires h > 0 && i == q * h + r && 0 <= r < h
    ensures i / h == q && i % h == r
  {
    var q', r' := i / h, i % h;
    assert i == h * q' + r';
    Commute(h, q');
    if q' < q {
      MulStep(q', h);
      MulAtLeast(q, q' + 1, h);
    }
    if q < q' {
      MulStep(q, h);
      MulAtLeast(q', q + 1, h);
    }
  }

  /** Which group the `i`-th item is in, and where in its group. */
  function Group(i: nat, h: nat): nat
    requires h > 0
  {
    if i < h then 0 else 1 + Group(i - h, h)
  }

  function InGroup(i: nat, h: nat): (r: nat)
    requires h > 0
    ensures r < h
  {
    if i < h then i else InGroup(i - h, h)
  }

  /** They are quotient and remainder. */
  lemma {:induction false} GroupIsDivision(i: nat, h: nat)
    requires h > 0
    ensures Group(i, h) == i / h && InGroup(i, h) == i % h
  {
    if i < h {
      DivideUnique(i, h, 0, i);
    } else {
      GroupIsDivision(i - h, h);
      var q, r := (i - h) / h, (i - h) % h;
      assert i - h == h * q + r;
      Commute(h, q);
      MulStep(q, h);
      DivideUnique(i, h, q + 1, r);
    }
  }

  /** An item's group is one of the groups. */
  lemma {:induction false} GroupInRange(i: nat, n: nat, h: nat)
    requires h > 0 && i < n
    ensures Group(i, h) < CeilDiv(n, h)
    decreases n
  {
    if i >= h { GroupInRange(i - h, n - h, h); }
  }
}
