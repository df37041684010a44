/**
  What a least-recently-used page list is, independently of how
  src/main/store/store.h:449-485 maintains it: the distinct pages of the lookup
  trace, the most recently used first, cut off at the size of the cache.
 */
module LruTheory {
  import opened Sequences

  function Without(s: seq<nat>, p: nat): (r: seq<nat>)
    ensures p !in r && |r| <= |s|
    ensures forall q :: q in r <==> q in s && q != p
  {
    if s == [] then []
    else if s[0] == p then Without(s[1..], p)
    else [s[0]] + Without(s[1..], p)
  }

  /** One lookup in a list that keeps at most `k` pages. */
  function Touch(s: seq<nat>, p: nat, k: nat): (r: seq<nat>) { Prefix([p] + Without(s, p), k) }

  /** The list after a whole trace of lookups, for a cache of `k` pages. */
  function After(trace: seq<nat>, k: nat): (r: seq<nat>)
  {
    if trace == [] then [] else Touch(After(trace[..|trace| - 1], k), trace[|trace| - 1], k)
  }

  /** The distinct pages of a trace, the most recently used first. */
  function Recent(trace: seq<nat>): (r: seq<nat>)
  {
    if trace == [] then [] else [trace[|trace| - 1]] + Without(Recent(trace[..|trace| - 1]), trace[|trace| - 1])
  }

  /** The position of the last use of `p`. */
  function LastUse(trace: seq<nat>, p: nat): (i: nat)
    requires p in trace
    ensures i < |trace| && trace[i] == p && forall j :: i < j < |trace| ==> trace[j] != p
  {
    if trace[|trace| - 1] == p then |trace| - 1 else LastUse(trace[..|trace| - 1], p)
  }

  lemma {:induction false} RecentIsSet(trace: seq<nat>)
    ensures forall p :: p in Recent(trace) <==> p in trace
    ensures Distinct(Recent(trace))
  {
    if trace != [] {
      var before, p := trace[..|trace| - 1], trace[|trace| - 1];
      assert trace == before + [p];
      RecentIsSet(before);
      WithoutKeepsOrder(Recent(before), p);
      assert Recent(trace) == [p] + Without(Recent(before), p);
    }
  }

  /** Two pages of the list were last used in the order the list says. */
  lemma {:induction false} RecentOrder(trace: seq<nat>, i: nat, j: nat)
    requires i < j < |Recent(trace)|
    ensures Recent(trace)[i] in trace && Recent(trace)[j] in trace
    ensures LastUse(trace, Recent(trace)[i]) > LastUse(trace, Recent(trace)[j])
  {
    var before, p := trace[..|trace| - 1], trace[|trace| - 1];
    var x, y := Recent(trace)[i], Recent(trace)[j];
    RecentAt(trace, j);
    if i == 0 {
      NewestFirst(trace, y);
    } else {
      RecentAt(trace, i);
      var a, b := WithoutIndices(Recent(before), p, i - 1, j - 1);
      RecentOrder(before, a, b);
      BothStay(trace, x, y);
    }
  }

  /** The list has pages of the trace, the last one used in front and nowhere else. */
  lemma RecentAt(trace: seq<nat>, i: nat)
    requires 0 < i < |Recent(trace)|
    ensures var p := trace[|trace| - 1]; Recent(trace)[0] == p && Recent(trace)[i] != p
    ensures Recent(trace)[i] in trace && Recent(trace)[i] == Without(Recent(trace[..|trace| - 1]), trace[|trace| - 1])[i - 1]
  {
    RecentIsSet(trace);
  }

  lemma NewestFirst(trace: seq<nat>, y: nat)
    requires trace != [] && y in trace && y != trace[|trace| - 1]
    ensures LastUse(trace, trace[|trace| - 1]) > LastUse(trace, y)
  {
  }

  lemma BothStay(trace: seq<nat>, x: nat, y: nat)
    requires trace != [] && x in trace && y in trace && x != trace[|trace| - 1] && y != trace[|trace| - 1]
    requires var before := trace[..|trace| - 1]; x in before && y in before && LastUse(before, x) > LastUse(before, y)
    ensures LastUse(trace, x) > LastUse(trace, y)
  {
  }

  /** `Recent` lists every page used, once, in the order of the last uses. */
  lemma RecentIsByLastUse(trace: seq<nat>)
    ensures forall p :: p in Recent(trace) <==> p in trace
    ensures Distinct(Recent(trace))
    ensures var r := Recent(trace);
            forall i, j :: 0 <= i < j < |r| ==> r[i] in trace && r[j] in trace && LastUse(trace, r[i]) > LastUse(trace, r[j])
  {
    RecentIsSet(trace);
    var r := Recent(trace);
    forall i, j | 0 <= i < j < |r|
      ensures r[i] in trace && r[j] in trace && LastUse(trace, r[i]) > LastUse(trace, r[j])
    {
      RecentOrder(trace, i, j);
    }
  }

  /** Elements of `Without(s, p)` stand in `s` in the same order. */
  lemma {:induction false} WithoutIndices(s: seq<nat>, p: nat, i: nat, j: nat) returns (a: nat, b: nat)
    requires i < j < |Without(s, p)|
    ensures a < b < |s| && s[a] == Without(s, p)[i] && s[b] == Without(s, p)[j]
  {
    if s[0] == p {
      a, b := WithoutIndices(s[1..], p, i, j);
      a, b := a + 1, b + 1;
    } else if i == 0 {
      assert Without(s, p)[j] in Without(s[1..], p);
      var c :| 0 <= c < |s[1..]| && s[1..][c] == Without(s, p)[j];
      a, b := 0, c + 1;
    } else {
      a, b := WithoutIndices(s[1..], p, i - 1, j - 1);
      a, b := a + 1, b + 1;
    }
  }

  lemma {:induction false} WithoutKeepsOrder(s: seq<nat>, p: nat)
    requires Distinct(s)
    ensures Distinct(Without(s, p))
    ensures p !in s ==> Without(s, p) == s
    ensures p in s ==> |Without(s, p)| == |s| - 1
  {
    if s != [] {
      WithoutKeepsOrder(s[1..], p);
      assert forall q :: q in s <==> q == s[0] || q in s[1..];
      assert s[0] !in s[1..];
      var w := Without(s[1..], p);
      assert s[0] != p ==> Without(s, p) == [s[0]] + w && s[0] !in w;
    }
  }

  lemma WithoutFirst(s: seq<nat>, k: nat)
    requires Distinct(s) && 0 < k < |s|
    ensures Prefix(Without(s[..k], s[0]), k - 1) == Prefix(Without(s, s[0]), k - 1)
  {
    WithoutKeepsOrder(s[1..], s[0]);
    WithoutKeepsOrder(s[..k][1..], s[0]);
    assert Without(s, s[0]) == s[1..] && Without(s[..k], s[0]) == s[..k][1..];
  }

  lemma PrefixOn(first: nat, a: seq<nat>, b: seq<nat>, k: nat)
    requires k > 0 && Prefix(a, k - 1) == Prefix(b, k - 1)
    ensures Prefix([first] + a, k) == Prefix([first] + b, k)
  {
    assert Prefix([first] + a, k) == [first] + Prefix(a, k - 1);
    assert Prefix([first] + b, k) == [first] + Prefix(b, k - 1);
  }

  /** Cutting a list before or after taking a page out comes to the same, one place short. */
  lemma {:induction false} WithoutPrefix(s: seq<nat>, p: nat, k: nat)
    requires Distinct(s) && k > 0
    ensures Prefix(Without(Prefix(s, k), p), k - 1) == Prefix(Without(s, p), k - 1)
  {
    if |s| > k {
      if s[0] == p {
        WithoutFirst(s, k);
      } else if k > 1 {
        WithoutPrefix(s[1..], p, k - 1);
        assert s[..k][1..] == s[1..][..k - 1];
        PrefixOn(s[0], Without(s[1..][..k - 1], p), Without(s[1..], p), k - 1);
      }
    }
  }

  /** A cache of `k` pages holds exactly the `k` most recently used ones. */
  lemma {:induction false} CacheHoldsMostRecent(trace: seq<nat>, k: nat)
    requires k > 0
    ensures After(trace, k) == Prefix(Recent(trace), k)
  {
    if trace != [] {
      var before, p := trace[..|trace| - 1], trace[|trace| - 1];
      CacheHoldsMostRecent(before, k);
      RecentIsByLastUse(before);
      WithoutPrefix(Recent(before), p, k);
      PrefixOn(p, Without(Prefix(Recent(before), k), p), Without(Recent(before), p), k);
    }
  }

  /** Over any trace the smaller cache's list is a prefix of the larger one's. */
  lemma SmallerIsPrefix(trace: seq<nat>, k: nat, m: nat)
    requires 0 < k <= m
    ensures After(trace, k) <= After(trace, m)
  {
    CacheHoldsMostRecent(trace, k);
    CacheHoldsMostRecent(trace, m);
  }

  /** How many lookups of a trace have to map a page. */
  function Misses(trace: seq<nat>, k: nat): (n: nat)
  {
    if trace == [] then 0
    else
      var before, p := trace[..|trace| - 1], trace[|trace| - 1];
      Misses(before, k) + if p in After(before, k) then 0 else 1
  }

  /** A larger cache never misses more. */
  lemma {:induction false} LargerNeverMissesMore(trace: seq<nat>, k: nat, m: nat)
    requires 0 < k <= m
    ensures Misses(trace, m) <= Misses(trace, k)
  {
    if trace != [] {
      var before := trace[..|trace| - 1];
      LargerNeverMissesMore(before, k, m);
      SmallerIsPrefix(before, k, m);
    }
  }
}
