/**
  What one side of an order book stands for: a sorted list of levels, best last, and the
  price-to-quantity table it represents (src/main/book/level.h:147-291).
 */
module PriceTable {
  import opened Sequences

  datatype Side = Bid | Ask

  datatype Entry = Entry(px: nat, qty: nat)

  /** The comparator of the side: bids ascend, asks descend. */
  predicate Before(side: Side, a: nat, b: nat) { if side.Bid? then a < b else a > b }

  ghost predicate Sorted(side: Side, es: seq<Entry>)
  {
    forall i, j :: 0 <= i < j < |es| ==> !Before(side, es[j].px, es[i].px)
  }

  /** Sorted without equal prices. */
  ghost predicate Strict(side: Side, es: seq<Entry>)
  {
    forall i, j :: 0 <= i < j < |es| ==> Before(side, es[i].px, es[j].px)
  }

  /** Where `std::lower_bound` points: everything before it belongs before `px`, nothing from it on does. */
  ghost predicate LowerBound(side: Side, es: seq<Entry>, px: nat, i: nat)
  {
    && i <= |es|
    && (forall j :: 0 <= j < i ==> Before(side, es[j].px, px))
    && (forall j :: i <= j < |es| ==> !Before(side, es[j].px, px))
  }

  function InsertAt<T>(s: seq<T>, i: nat, x: T): (r: seq<T>)
    requires i <= |s|
    ensures |r| == |s| + 1
  {
    s[..i] + [x] + s[i..]
  }

  ghost predicate Has(es: seq<Entry>, px: nat) { exists i :: 0 <= i < |es| && es[i].px == px }

  /** The quantity of every price. */
  function Table(es: seq<Entry>): (m: map<nat, nat>)
    ensures forall px :: px in m <==> Has(es, px)
  {
    if es == [] then map[]
    else
      var m := Table(es[1..]);
      m[es[0].px := es[0].qty]
  }

  /** On a list without equal prices every entry is in the table. */
  lemma {:induction false} TableHas(side: Side, es: seq<Entry>, i: nat)
    requires Strict(side, es) && i < |es|
    ensures es[i].px in Table(es) && Table(es)[es[i].px] == es[i].qty
  {
    if i > 0 {
      assert Strict(side, es[1..]);
      TableHas(side, es[1..], i - 1);
      assert es[1..][i - 1] == es[i];
      assert Before(side, es[0].px, es[i].px);
    }
  }

  /** A table is determined by the entries it has. */
  lemma SameTable(side: Side, es: seq<Entry>, m: map<nat, nat>)
    requires Strict(side, es)
    requires forall i :: 0 <= i < |es| ==> es[i].px in m && m[es[i].px] == es[i].qty
    requires forall px :: px in m ==> Has(es, px)
    ensures Table(es) == m
  {
    forall px | px in m ensures px in Table(es) && Table(es)[px] == m[px] {
      var i :| 0 <= i < |es| && es[i].px == px;
      TableHas(side, es, i);
    }
  }

  /** A price is in the list exactly when it stands at its lower bound. */
  lemma FoundAtBound(side: Side, es: seq<Entry>, px: nat, i: nat)
    requires Sorted(side, es) && LowerBound(side, es, px, i)
    ensures px in Table(es) <==> i < |es| && es[i].px == px
  {
    if px in Table(es) {
      var j :| 0 <= j < |es| && es[j].px == px;
      if j > i { assert !Before(side, es[j].px, es[i].px); }
    }
  }

  /** Inserting at the lower bound keeps the list sorted; it stays free of equal prices exactly when the price is new. */
  lemma InsertKeepsOrder(side: Side, es: seq<Entry>, e: Entry, i: nat)
    requires Sorted(side, es) && LowerBound(side, es, e.px, i)
    ensures Sorted(side, InsertAt(es, i, e))
    ensures Strict(side, es) ==> (Strict(side, InsertAt(es, i, e)) <==> e.px !in Table(es))
  {
    InsertSorted(side, es, e, i);
    FoundAtBound(side, es, e.px, i);
    if Strict(side, es) {
      if e.px in Table(es) {
        var r := InsertAt(es, i, e);
        assert r[i] == e && r[i + 1] == es[i];
      } else {
        InsertStrict(side, es, e, i);
      }
    }
  }

  lemma Inserted(es: seq<Entry>, e: Entry, i: nat)
    requires i <= |es|
    ensures var r := InsertAt(es, i, e);
            forall j :: 0 <= j < |r| ==> r[j] == if j < i then es[j] else if j == i then e else es[j - 1]
  {
  }

  lemma InsertSorted(side: Side, es: seq<Entry>, e: Entry, i: nat)
    requires Sorted(side, es) && LowerBound(side, es, e.px, i)
    ensures Sorted(side, InsertAt(es, i, e))
  {
    Inserted(es, e, i);
    var r := InsertAt(es, i, e);
    forall j, k | 0 <= j < k < |r| ensures !Before(side, r[k].px, r[j].px) {
      if j < i && k > i { assert !Before(side, es[k - 1].px, es[j].px); }
    }
  }

  lemma InsertStrict(side: Side, es: seq<Entry>, e: Entry, i: nat)
    requires Strict(side, es) && LowerBound(side, es, e.px, i) && e.px !in Table(es)
    ensures Strict(side, InsertAt(es, i, e))
  {
    Inserted(es, e, i);
    var r := InsertAt(es, i, e);
    forall j, k | 0 <= j < k < |r| ensures Before(side, r[j].px, r[k].px) {
      if j == i {
        assert es[k - 1].px in Table(es) && !Before(side, es[k - 1].px, e.px);
      }
    }
  }

  lemma InsertedHas(es: seq<Entry>, e: Entry, i: nat, px: nat)
    requires i <= |es| && (Has(es, px) || px == e.px)
    ensures Has(InsertAt(es, i, e), px)
  {
    Inserted(es, e, i);
    var r := InsertAt(es, i, e);
    if px == e.px {
      assert r[i].px == px;
    } else {
      var j :| 0 <= j < |es| && es[j].px == px;
      if j < i { assert r[j].px == px; } else { assert r[j + 1].px == px; }
    }
  }

  lemma InsertTable(side: Side, es: seq<Entry>, e: Entry, i: nat)
    requires Strict(side, es) && Sorted(side, es) && LowerBound(side, es, e.px, i) && e.px !in Table(es)
    ensures Table(InsertAt(es, i, e)) == Table(es)[e.px := e.qty]
  {
    InsertKeepsOrder(side, es, e, i);
    var r, m := InsertAt(es, i, e), Table(es)[e.px := e.qty];
    forall j | 0 <= j < |r| ensures r[j].px in m && m[r[j].px] == r[j].qty {
      if j != i {
        TableHas(side, es, if j < i then j else j - 1);
      }
    }
    forall px | px in m ensures Has(r, px) {
      InsertedHas(es, e, i, px);
    }
    SameTable(side, r, m);
  }

  lemma UpdateTable(side: Side, es: seq<Entry>, i: nat, qty: nat)
    requires Strict(side, es) && i < |es|
    ensures var r := es[i := Entry(es[i].px, qty)];
            Strict(side, r) && Table(r) == Table(es)[es[i].px := qty]
  {
    var px := es[i].px;
    var r, m := es[i := Entry(px, qty)], Table(es)[px := qty];
    forall j | 0 <= j < |r| ensures r[j].px in m && m[r[j].px] == r[j].qty {
      if j != i {
        TableHas(side, es, j);
        assert r[j].px != px;
      }
    }
    forall q | q in m ensures Has(r, q) {
      if q == px {
        assert r[i].px == q;
      } else {
        var j :| 0 <= j < |es| && es[j].px == q;
        assert r[j].px == q;
      }
    }
    SameTable(side, r, m);
  }

  lemma Erased(side: Side, es: seq<Entry>, i: nat)
    requires Strict(side, es) && i < |es|
    ensures var r := RemoveAt(es, i);
            && (forall j :: 0 <= j < |r| ==> r[j] == es[if j < i then j else j + 1] && r[j].px != es[i].px)
            && Strict(side, r)
  {
  }

  lemma ErasedHas(es: seq<Entry>, i: nat, px: nat)
    requires i < |es| && Has(es, px) && px != es[i].px
    ensures Has(RemoveAt(es, i), px)
  {
    var r := RemoveAt(es, i);
    var j :| 0 <= j < |es| && es[j].px == px;
    if j < i { assert r[j].px == px; } else { assert r[j - 1].px == px; }
  }

  lemma EraseTable(side: Side, es: seq<Entry>, i: nat)
    requires Strict(side, es) && i < |es|
    ensures Strict(side, RemoveAt(es, i)) && Table(RemoveAt(es, i)) == Table(es) - {es[i].px}
  {
    Erased(side, es, i);
    var r, m := RemoveAt(es, i), Table(es) - {es[i].px};
    forall j | 0 <= j < |r| ensures r[j].px in m && m[r[j].px] == r[j].qty {
      TableHas(side, es, if j < i then j else j + 1);
    }
    forall px | px in m ensures Has(r, px) {
      ErasedHas(es, i, px);
    }
    SameTable(side, r, m);
  }

  /** Better prices come later in the list: the best price of the side is the last one, equal prices included. */
  lemma LastIsBest(side: Side, es: seq<Entry>)
    requires Sorted(side, es) && es != []
    ensures var best := es[|es| - 1];
            && best.px in Table(es) && (forall px :: px in Table(es) ==> !Before(side, best.px, px))
            && (Strict(side, es) ==> Table(es)[best.px] == best.qty)
  {
    var n := |es| - 1;
    assert Has(es, es[n].px);
    forall px | px in Table(es) ensures !Before(side, es[n].px, px) {
      var j :| 0 <= j < |es| && es[j].px == px;
    }
    if Strict(side, es) { TableHas(side, es, n); }
  }

  /** The `n` best levels, the best first. */
  function Best(es: seq<Entry>, n: nat): (r: seq<Entry>)
    ensures |r| == if n < |es| then n else |es|
    ensures forall i :: 0 <= i < |r| ==> r[i] == es[|es| - 1 - i]
  {
    seq(if n < |es| then n else |es|, i requires 0 <= i < |es| => es[|es| - 1 - i])
  }

  lemma ShownWhenNear(es: seq<Entry>, n: nat, j: nat)
    requires j < |es|
    ensures j >= |es| - |Best(es, n)| ==> exists i :: 0 <= i < |Best(es, n)| && Best(es, n)[i].px == es[j].px
  {
    if j >= |es| - |Best(es, n)| { assert Best(es, n)[|es| - 1 - j].px == es[j].px; }
  }

  ghost predicate Hidden(r: seq<Entry>, px: nat) { forall i :: 0 <= i < |r| ==> r[i].px != px }

  /** `r` has at most `n` entries of the table, best first, each better than everything not in it; it is shorter only if nothing is left out. */
  ghost predicate BestOf(side: Side, m: map<nat, nat>, n: nat, r: seq<Entry>)
  {
    && |r| <= n
    && (forall i :: 0 <= i < |r| ==> r[i].px in m && m[r[i].px] == r[i].qty)
    && (forall i, j :: 0 <= i < j < |r| ==> Before(side, r[j].px, r[i].px))
    && (forall px :: px in m && Hidden(r, px) ==> |r| == n && forall i :: 0 <= i < |r| ==> Before(side, px, r[i].px))
  }

  /** What a snapshot shows: the best `levels` levels, all of them for 0. */
  ghost predicate Shows(side: Side, m: map<nat, nat>, levels: int, r: seq<Entry>)
  {
    BestOf(side, m, Depth(|m|, levels), r) && (levels == 0 ==> forall px :: px in m ==> !Hidden(r, px))
  }

  lemma BestAreTheBest(side: Side, es: seq<Entry>, n: nat)
    requires Strict(side, es)
    ensures BestOf(side, Table(es), n, Best(es, n))
  {
    var r := Best(es, n);
    forall i | 0 <= i < |r| ensures r[i].px in Table(es) && Table(es)[r[i].px] == r[i].qty {
      TableHas(side, es, |es| - 1 - i);
    }
    forall px | px in Table(es) && Hidden(r, px)
      ensures |r| == n && forall i :: 0 <= i < |r| ==> Before(side, px, r[i].px)
    {
      var j :| 0 <= j < |es| && es[j].px == px;
      ShownWhenNear(es, n, j);
    }
  }

  /** How many of `n` levels a snapshot takes: all of them for 0. */
  function Depth(n: nat, levels: int): nat { if levels == 0 then n else if levels < 0 then 0 else levels }

  lemma Shown(side: Side, es: seq<Entry>, levels: int)
    requires Strict(side, es)
    ensures Shows(side, Table(es), levels, Best(es, Depth(|es|, levels)))
  {
    BestAreTheBest(side, es, Depth(|es|, levels));
    TableSize(side, es);
    forall px | levels == 0 && px in Table(es) ensures !Hidden(Best(es, |es|), px) {
      var j :| 0 <= j < |es| && es[j].px == px;
      ShownWhenNear(es, |es|, j);
    }
  }

  /** A change of the feed: quantity zero takes the price out, another one sets it. */
  function Changed(m: map<nat, nat>, px: nat, qty: nat): map<nat, nat>
  {
    if qty == 0 then m - {px} else m[px := qty]
  }

  /** Erasing a price, there or not. */
  lemma EraseChanges(side: Side, es: seq<Entry>, r: seq<Entry>, px: nat, ok: bool, i: int)
    requires Strict(side, es) && (ok <==> px in Table(es))
    requires if ok then 0 <= i < |es| && es[i].px == px && r == RemoveAt(es, i) else r == es
    ensures Strict(side, r) && Table(r) == Changed(Table(es), px, 0)
  {
    if ok { EraseTable(side, es, i); }
  }

  /** Setting a price: an update of the level that is there, or an insertion at its place. */
  lemma SetChanges(side: Side, es: seq<Entry>, r: seq<Entry>, px: nat, qty: nat, i: int)
    requires Strict(side, es) && qty != 0 && i >= 0
    requires px in Table(es) ==> i < |es| && es[i].px == px && r == es[i := Entry(px, qty)]
    requires px !in Table(es) ==> LowerBound(side, es, px, i) && r == InsertAt(es, i, Entry(px, qty))
    ensures Strict(side, r) && Table(r) == Changed(Table(es), px, qty)
  {
    if px in Table(es) {
      UpdateTable(side, es, i, qty);
    } else {
      InsertKeepsOrder(side, es, Entry(px, qty), i);
      InsertTable(side, es, Entry(px, qty), i);
    }
  }

  /** Without equal prices there are as many prices as entries. */
  lemma {:induction false} TableSize(side: Side, es: seq<Entry>)
    requires Strict(side, es)
    ensures |Table(es)| == |es|
  {
    if es != [] {
      TableSize(side, es[1..]);
      assert Table(es).Keys == Table(es[1..]).Keys + {es[0].px};
    }
  }

  /** One change of the feed. */
  datatype Change = Change(side: Side, px: nat, qty: nat)

  /** The two tables, and the largest number of levels they ever held together. */
  datatype Tables = Tables(bids: map<nat, nat>, asks: map<nat, nat>, fullest: nat)

  /** What one change does to them. */
  function Next(t: Tables, c: Change): Tables
  {
    var bids := if c.side.Bid? then Changed(t.bids, c.px, c.qty) else t.bids;
    var asks := if c.side.Ask? then Changed(t.asks, c.px, c.qty) else t.asks;
    Tables(bids, asks, Max(t.fullest, |bids| + |asks|))
  }

  /** What a feed does to them. */
  function After(t: Tables, feed: seq<Change>): Tables
  {
    if feed == [] then t else Next(After(t, feed[..|feed| - 1]), feed[|feed| - 1])
  }

  lemma AfterOneMore(t: Tables, feed: seq<Change>, i: nat)
    requires i < |feed|
    ensures After(t, feed[..i + 1]) == Next(After(t, feed[..i]), feed[i])
  {
    assert feed[..i + 1][..i] == feed[..i];
  }

  /** No later change of the feed is for the same price of the same side. */
  ghost predicate IsLast(feed: seq<Change>, i: nat)
    requires i < |feed|
  {
    forall j :: i < j < |feed| ==> feed[j].side != feed[i].side || feed[j].px != feed[i].px
  }

  ghost predicate Untouched(side: Side, feed: seq<Change>, px: nat)
  {
    forall j :: 0 <= j < |feed| ==> feed[j].side != side || feed[j].px != px
  }

  /** A side after a feed: every price has the quantity of the last change for it, is gone when that is 0, and is as before when there is none. */
  ghost predicate LastStands(side: Side, before: map<nat, nat>, feed: seq<Change>, now: map<nat, nat>)
  {
    && (forall i :: 0 <= i < |feed| && feed[i].side == side && IsLast(feed, i) ==>
          if feed[i].qty == 0 then feed[i].px !in now else feed[i].px in now && now[feed[i].px] == feed[i].qty)
    && (forall px: nat :: Untouched(side, feed, px) ==> (px in now <==> px in before) && (px in now ==> now[px] == before[px]))
  }

  /** Only the last change of a price counts, on the side it is for. */
  lemma {:induction false} LastChangesStand(t: Tables, feed: seq<Change>)
    ensures var v := After(t, feed); LastStands(Bid, t.bids, feed, v.bids) && LastStands(Ask, t.asks, feed, v.asks)
  {
    if feed != [] {
      var first, c := feed[..|feed| - 1], feed[|feed| - 1];
      LastChangesStand(t, first);
      var u := After(t, first);
      OneMoreStands(Bid, t.bids, first, u.bids, c, After(t, feed).bids);
      OneMoreStands(Ask, t.asks, first, u.asks, c, After(t, feed).asks);
      assert feed == first + [c];
    }
  }

  lemma OneMoreStands(side: Side, before: map<nat, nat>, feed: seq<Change>, m: map<nat, nat>, c: Change, now: map<nat, nat>)
    requires LastStands(side, before, feed, m) && now == if c.side == side then Changed(m, c.px, c.qty) else m
    ensures LastStands(side, before, feed + [c], now)
  {
    var all := feed + [c];
    forall i | 0 <= i < |all| && all[i].side == side && IsLast(all, i)
      ensures if all[i].qty == 0 then all[i].px !in now else all[i].px in now && now[all[i].px] == all[i].qty
    {
      if i < |feed| {
        assert forall j :: i < j < |feed| ==> all[j] == feed[j];
        assert all[|feed|] == c && IsLast(feed, i);
      }
    }
    forall px: nat | Untouched(side, all, px) ensures (px in now <==> px in before) && (px in now ==> now[px] == before[px]) {
      assert forall j :: 0 <= j < |feed| ==> all[j] == feed[j];
      assert all[|feed|] == c && Untouched(side, feed, px);
    }
  }

  /** The number of levels after the first `i` changes. */
  function LevelsAfter(t: Tables, feed: seq<Change>, i: nat): (n: nat)
    requires i <= |feed|
  {
    var v := After(t, feed[..i]);
    |v.bids| + |v.asks|
  }

  /** The number of levels after each change. */
  function Moments(t: Tables, feed: seq<Change>): (levels: seq<nat>)
  {
    seq(|feed|, i requires 0 <= i < |feed| => LevelsAfter(t, feed, i + 1))
  }

  /** `top` is the largest of the numbers, reached by the `at`-th of them, or what it was before any (`at` is 0). */
  ghost predicate TopAt(before: nat, levels: seq<nat>, top: nat, at: nat)
  {
    && at <= |levels| && (forall i :: 0 <= i < |levels| ==> levels[i] <= top)
    && before <= top == if at == 0 then before else levels[at - 1]
  }

  /** `fullest` is the number of levels at the fullest moment of a feed. */
  lemma {:induction false} FullestMoment(t: Tables, feed: seq<Change>) returns (at: nat)
    ensures TopAt(t.fullest, Moments(t, feed), After(t, feed).fullest, at)
  {
    if feed == [] {
      at := 0;
    } else {
      var n := |feed| - 1;
      at := FullestMoment(t, feed[..n]);
      FullestOnce(t, feed, n);
      OneMoreMoment(t, feed, n);
      if LevelsAfter(t, feed, n + 1) > After(t, feed[..n]).fullest { at := n + 1; }
    }
  }

  lemma {:induction false} OneMoreMoment(t: Tables, feed: seq<Change>, n: nat)
    requires |feed| == n + 1
    ensures Moments(t, feed) == Moments(t, feed[..n]) + [LevelsAfter(t, feed, n + 1)]
  {
    forall i | 0 <= i < n ensures Moments(t, feed)[i] == Moments(t, feed[..n])[i] { SamePrefix(t, feed, n, i + 1); }
  }

  lemma {:induction false} SamePrefix(t: Tables, feed: seq<Change>, n: nat, i: nat)
    requires i <= n <= |feed|
    ensures LevelsAfter(t, feed, i) == LevelsAfter(t, feed[..n], i)
  {
    assert feed[..n][..i] == feed[..i];
  }

  lemma {:induction false} FullestOnce(t: Tables, feed: seq<Change>, n: nat)
    requires |feed| == n + 1
    ensures After(t, feed).fullest == Max(After(t, feed[..n]).fullest, LevelsAfter(t, feed, n + 1))
  {
    assert feed[..n + 1] == feed;
  }
}
