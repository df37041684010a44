/** Page arithmetic: offsets, page numbers and page boundaries. */
module Pages {

  /** The boundary of the page that holds `x`: the source's `(x / pageSize) * pageSize`. */
  function PageStart(x: nat, p: nat): (s: nat)
    requires p > 0
    ensures s <= x < s + p && s % p == 0
  {
    Quotient(x, p);
    Multiple(x / p, p);
    x / p * p
  }

  lemma Quotient(x: nat, p: nat)
    requires p > 0
    ensures x / p * p <= x < x / p * p + p && 0 <= x / p * p
    ensures x == x / p * p + x % p
  {
  }

  lemma {:induction false} Multiple(i: nat, p: nat)
    requires p > 0
    ensures 0 <= i * p && (i * p) % p == 0 && (i * p) / p == i
  {
    if i > 0 {
      Multiple(i - 1, p);
      assert i * p == (i - 1) * p + p;
      NextPage((i - 1) * p, p);
    }
  }

  /** One page further is a page boundary again, and the next page number. */
  lemma NextPage(x: nat, p: nat)
    requires p > 0
    ensures (x + p) % p == x % p && (x + p) / p == x / p + 1
  {
    var q, r := x / p, x % p;
    assert x + p == (q + 1) * p + r;
    UniqueQuotient(x + p, p, q + 1, r);
  }

  lemma PreviousPage(x: nat, p: nat)
    requires p > 0 && x % p == 0 && x >= p
    ensures (x - p) % p == 0
  {
    Quotient(x, p);
    UniqueQuotient(x - p, p, x / p - 1, 0);
  }

  /** A larger multiple is at least one step larger. */
  lemma {:induction false} MulStep(i: nat, j: nat, p: nat)
    requires i < j
    ensures i * p + p <= j * p
  {
    if i + 1 < j {
      MulStep(i, j - 1, p);
      assert j * p == (j - 1) * p + p;
    } else {
      assert j * p == i * p + p;
    }
  }

  lemma UniqueQuotient(x: nat, p: nat, q: nat, r: nat)
    requires p > 0 && x == q * p + r && r < p
    ensures x / p == q && x % p == r
  {
    Quotient(x, p);
    SameSplit(x / p, x % p, q, r, p);
  }

  lemma SameSplit(a: nat, b: nat, q: nat, r: nat, p: nat)
    requires a * p + b == q * p + r && b < p && r < p
    ensures a == q && b == r
  {
    if a < q { MulStep(a, q, p); }
    if q < a { MulStep(q, a, p); }
  }

  /** Two page boundaries less than a page apart are the same. */
  lemma SameBoundary(a: nat, b: nat, p: nat)
    requires p > 0 && a % p == 0 && b % p == 0 && a <= b < a + p
    ensures a == b
  {
    Quotient(a, p);
    Quotient(b, p);
    OrderedSplit(a / p, 0, b / p, 0, p);
  }

  lemma OrderedSplit(i: nat, a: nat, j: nat, b: nat, p: nat)
    requires a < p && b < p
    ensures i * p + a <= j * p + b ==> i <= j && i * p <= j * p
    ensures i < j ==> i * p + a < j * p
    ensures i * p + a <= j * p + b < i * p + p ==> i == j
  {
    if i < j { MulStep(i, j, p); }
    if j < i { MulStep(j, i, p); }
  }

  /** A page boundary below another one is at least a page below. */
  lemma Below(a: nat, b: nat, p: nat)
    requires p > 0 && a % p == 0 && b % p == 0 && a < b
    ensures a + p <= b
  {
    if b < a + p { SameBoundary(a, b, p); }
  }
}
