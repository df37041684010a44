/**
  What a tag store finds when it is opened again (src/main/cache/tagcache.h:109-181):
  the round trip through the zero-padded file, with the exact condition under which it
  is complete, and what becomes of tags added after that.
 */
module TagStoreRuns {
  import opened Sequences
  import opened Words
  import opened Pages
  import opened PageCaches
  import opened WriteBuffer
  import opened RWStream
  import opened TagStore

  /** The position of the first empty tag, or the number of tags. */
  function FirstEmpty(tags: seq<Tag>): (k: nat)
    ensures k <= |tags| && (k < |tags| ==> tags[k] == []) && forall i :: 0 <= i < k ==> tags[i] != []
  {
    if tags == [] || tags[0] == [] then 0 else 1 + FirstEmpty(tags[1..])
  }

  ghost predicate Storable(tags: seq<Tag>) { forall i :: 0 <= i < |tags| ==> |tags[i]| <= MAX_TAG_LEN }

  /** Padding in which the end of the records is recognised: none, or room for a zero length. */
  predicate GoodPadding(pad: nat) { pad == 0 || pad >= SIZE_LEN }

  /** Reading back: the tags before the first empty one, whose length reads like the end of the records. */
  lemma {:induction false} ParseEncoded(bytes: seq<Byte>, prefix: seq<Byte>, tags: seq<Tag>, pad: nat)
    requires bytes == prefix + (Encoded(tags) + Zeros(pad)) && Storable(tags)
    ensures var k := FirstEmpty(tags);
            Parse(bytes, |prefix|) ==
              Parsed(k < |tags| || GoodPadding(pad), tags[..k], |prefix| + |Encoded(tags[..k])|, false)
    decreases |tags|
  {
    if tags == [] {
      ParseEnd(bytes, prefix, pad);
    } else {
      var t, rest := tags[0], Encoded(tags[1..]) + Zeros(pad);
      assert Encoded(tags) + Zeros(pad) == Record(t) + rest;
      ParseRecord(bytes, prefix, t, rest);
      if t != [] {
        ParseEncoded(bytes, prefix + Record(t), tags[1..], pad);
        FirstOfMore(tags);
      }
    }
  }

  lemma ParseEnd(bytes: seq<Byte>, prefix: seq<Byte>, pad: nat)
    requires bytes == prefix + (Encoded([]) + Zeros(pad))
    ensures Parse(bytes, |prefix|) == Parsed(GoodPadding(pad), [], |prefix|, false)
  {
    if pad >= SIZE_LEN {
      assert bytes[|prefix|..|prefix| + SIZE_LEN] == seq(SIZE_LEN, _ => 0);
      ZerosAreZero(SIZE_LEN);
    }
  }

  lemma ParseRecord(bytes: seq<Byte>, prefix: seq<Byte>, t: Tag, rest: seq<Byte>)
    requires bytes == prefix + (Record(t) + rest) && |t| <= MAX_TAG_LEN
    ensures bytes == (prefix + Record(t)) + rest
    ensures Parse(bytes, |prefix|) ==
              if t == [] then Parsed(true, [], |prefix|, false) else After([t], Parse(bytes, |prefix + Record(t)|))
  {
    RecordAt(bytes, prefix, t, rest);
    LongRecord(bytes, |prefix|, |t|);
  }

  /** The record that follows a prefix of a file. */
  lemma RecordAt(bytes: seq<Byte>, prefix: seq<Byte>, t: Tag, rest: seq<Byte>)
    requires bytes == prefix + (Record(t) + rest) && |t| <= MAX_TAG_LEN
    ensures var at := |prefix| + SIZE_LEN;
            && at + |t| <= |bytes|
            && FromLittleEndian(bytes[|prefix|..at]) == |t|
            && View(bytes, at, |t|) == t
            && bytes == (prefix + Record(t)) + rest
  {
    WordSizes();
    LittleEndianRoundTrip(|t|, SIZE_LEN);
    assert bytes[|prefix|..|prefix| + SIZE_LEN] == LittleEndian(|t|, SIZE_LEN);
    assert bytes[|prefix| + SIZE_LEN..|prefix| + SIZE_LEN + |t|] == t;
  }

  lemma FirstOfMore(tags: seq<Tag>)
    requires tags != [] && tags[0] != []
    ensures var k := FirstEmpty(tags[1..]);
            && FirstEmpty(tags) == k + 1
            && tags[..k + 1] == [tags[0]] + tags[1..][..k]
            && Encoded(tags[..k + 1]) == Record(tags[0]) + Encoded(tags[1..][..k])
  {
    var k := FirstEmpty(tags[1..]);
    assert tags[..k + 1][1..] == tags[1..][..k];
  }

  /**
    Reading the file of a list of tags followed by `pad` zeros always yields the tags before
    the first empty one.  It succeeds with the whole list exactly when no tag is empty and
    the padding is empty or has room for a length.
   */
  lemma RestoredExactlyWhen(tags: seq<Tag>, pad: nat)
    requires Storable(tags)
    ensures var r := Parse(Encoded(tags) + Zeros(pad), 0);
            && !r.fault && r.tags == tags[..FirstEmpty(tags)] && r.off <= |Encoded(tags)|
            && r.off == |Encoded(r.tags)| && ((r.ok && r.tags == tags) <==> [] !in tags && GoodPadding(pad))
            && (r.ok && r.tags == tags ==> r.off == |Encoded(tags)|)
  {
    var bytes, k := Encoded(tags) + Zeros(pad), FirstEmpty(tags);
    assert bytes == [] + (Encoded(tags) + Zeros(pad));
    ParseEncoded(bytes, [], tags, pad);
    PrefixShorter(tags, k);
    if k == |tags| { assert tags[..k] == tags; }
    if k < |tags| { assert tags[k] in tags; }
  }

  lemma {:induction false} PrefixShorter(tags: seq<Tag>, k: nat)
    requires k <= |tags|
    ensures |Encoded(tags[..k])| <= |Encoded(tags)|
  {
    if k > 0 {
      PrefixShorter(tags[1..], k - 1);
      assert tags[..k][1..] == tags[1..][..k - 1];
    }
  }

  /**
    A tag added after a restore lands behind the restored ones exactly when its record fits
    in the rest of the page; otherwise the record runs over the start of that page.
   */
  lemma AddedAfterRestoreExactlyWhen(tags: seq<Tag>, pad: nat, tag: Tag, p: nat)
    requires p > 0 && (|Encoded(tags)| + pad) % p == 0 && pad < p
    ensures var w := Positioned(Encoded(tags) + Zeros(pad), |Encoded(tags)|, p);
            w.Repositioned(p) &&
            var r := Recorded(w, tag, p);
            (|Encoded(tags + [tag])| <= |r.bytes| && r.bytes[..|Encoded(tags + [tag])|] == Encoded(tags + [tag]))
            <==> |Encoded(tags)| % p + SIZE_LEN + |tag| <= p
  {
    var e := |Encoded(tags)|;
    var w := Positioned(Encoded(tags) + Zeros(pad), e, p);
    PositionedPage(e, pad, p, |w.bytes|);
    assert w.Written() == Encoded(tags);
    EncodedAppend(tags, tag);
    RecordFits(w, tag, p);
  }

  /** The two pushes of a record after `SetPosition` behave like one push of the whole record. */
  lemma RecordFits(w: WriteState, tag: Tag, p: nat)
    requires w.Repositioned(p) && |w.bytes| == w.offset + p
    ensures var r, e := Recorded(w, tag, p), w.End() + SIZE_LEN + |tag|;
            (e <= |r.bytes| && r.bytes[..e] == w.Written() + Record(tag)) <==> w.pos + SIZE_LEN + |tag| <= p
  {
    var l := LittleEndian(|tag|, SIZE_LEN);
    PushKeepsShape(w, l, p);
    var u := w.Pushed(l, p);
    if w.pos + SIZE_LEN <= p {
      PushFits(w, l, p);
      if w.pos + SIZE_LEN + |tag| <= p {
        PushFits(u, tag, p);
      } else {
        PushOverflows(u, tag, p);
      }
    } else {
      PushOverflows(w, l, p);
      StaysShort(u, tag, p);
    }
  }

  /** From a page that is begun, a push leaves less than a page of room. */
  lemma StaysShort(u: WriteState, tag: Tag, p: nat)
    requires u.Linear(p) && |u.bytes| < u.End() + p
    ensures u.Pushed(tag, p).End() == u.End() + |tag| && |u.Pushed(tag, p).bytes| < u.End() + |tag| + p
  {
    PushAppends(u, tag, p);
  }

  lemma PositionedPage(e: nat, pad: nat, p: nat, n: nat)
    requires p > 0 && (e + pad) % p == 0 && pad < p && n == if pad == 0 then e + p else e + pad
    ensures PageStart(e, p) + p == n && PageStart(e, p) + e % p == e
  {
    Quotient(e, p);
    var b := PageStart(e, p);
    if pad == 0 {
      SameBoundary(b, e, p);
    } else {
      Below(b, e + pad, p);
      NextPage(b, p);
      if b + p < e + pad { Below(b + p, e + pad, p); }
    }
  }

  /** Without duplicates, ids and tags determine each other. */
  lemma MutuallyInverse(tags: seq<Tag>, ids: map<Tag, nat>)
    requires Indexed(tags, ids) && Distinct(tags)
    ensures forall i :: 0 <= i < |tags| ==> tags[i] in ids && ids[tags[i]] == i
    ensures forall t :: t in ids ==> ids[t] < |tags| && tags[ids[t]] == t
  {
    forall i | 0 <= i < |tags| ensures tags[i] in ids && ids[tags[i]] == i {
      assert tags[i] in tags;
    }
  }

  /** Everything behind the write position is zero. */
  ghost predicate Padded(w: WriteState)
  {
    w.End() <= |w.bytes| && forall i :: w.End() <= i < |w.bytes| ==> w.bytes[i] == 0
  }

  /** No page of the file is unused. */
  ghost predicate Compact(w: WriteState, p: nat) { |w.bytes| < w.End() + p }

  lemma {:induction false} PushKeepsPadding(w: WriteState, data: seq<Byte>, p: nat)
    requires w.Linear(p) && Padded(w)
    ensures Padded(w.Pushed(data, p)) && (data != [] || Compact(w, p) ==> Compact(w.Pushed(data, p), p))
    decreases |data|
  {
    if data != [] {
      TurnAppends(w, data, p);
      TurnKeepsPadding(w, data, p);
      PushKeepsPadding(w.Turn(data, p), data[w.Step(data, p)..], p);
    }
  }

  lemma TurnKeepsPadding(w: WriteState, data: seq<Byte>, p: nat)
    requires w.Linear(p) && Padded(w) && data != []
    ensures Padded(w.Turn(data, p)) && Compact(w.Turn(data, p), p)
  {
    var v := w.WithRoom(p);
    assert Padded(v);
  }

  lemma RecordKeepsPadding(w: WriteState, tag: Tag, p: nat)
    requires w.Linear(p) && Padded(w)
    ensures Padded(Recorded(w, tag, p)) && Compact(Recorded(w, tag, p), p)
  {
    var l := LittleEndian(|tag|, SIZE_LEN);
    PushKeepsPadding(w, l, p);
    PushAppends(w, l, p);
    PushKeepsPadding(w.Pushed(l, p), tag, p);
  }

  /** The zeros between `n` bytes and the next page boundary. */
  function Padding(n: nat, p: nat): (pad: nat)
    requires p > 0
  {
    if n % p == 0 then 0 else p - n % p
  }

  /** The file of a store with these tags, in pages of `p` bytes. */
  function FileBytes(tags: seq<Tag>, p: nat): (bytes: seq<Byte>)
    requires p > 0
  {
    Encoded(tags) + Zeros(Padding(|Encoded(tags)|, p))
  }

  lemma PaddingIs(n: nat, pad: nat, p: nat)
    requires p > 0 && (n + pad) % p == 0 && pad < p
    ensures pad == Padding(n, p)
  {
    Quotient(n, p);
    Quotient(n + pad, p);
    if n % p + pad < p {
      UniqueQuotient(n + pad, p, n / p, n % p + pad);
    } else {
      assert n + pad == (n / p + 1) * p + (n % p + pad - p);
      UniqueQuotient(n + pad, p, n / p + 1, n % p + pad - p);
    }
  }

  /** The names that are not too long, in the order of their first occurrence. */
  function Firsts(names: seq<Tag>): (tags: seq<Tag>)
  {
    if names == [] then []
    else
      var tags, t := Firsts(names[..|names| - 1]), names[|names| - 1];
      if t in tags || |t| > MAX_TAG_LEN then tags else tags + [t]
  }

  lemma {:induction false} FirstsAreTheNames(names: seq<Tag>)
    ensures Distinct(Firsts(names)) && Storable(Firsts(names))
    ensures forall t :: t in Firsts(names) <==> t in names && |t| <= MAX_TAG_LEN
  {
    if names != [] {
      var before, t := names[..|names| - 1], names[|names| - 1];
      FirstsAreTheNames(before);
      assert names == before + [t];
    }
  }

  /** `t` occurs in front of every `u`. */
  ghost predicate Precedes(names: seq<Tag>, t: Tag, u: Tag)
  {
    exists a :: 0 <= a < |names| && names[a] == t && u !in names[..a + 1]
  }

  lemma {:induction false} FirstsAreInOrder(names: seq<Tag>, i: nat, j: nat)
    requires i < j < |Firsts(names)|
    ensures Precedes(names, Firsts(names)[i], Firsts(names)[j])
  {
    var before, t, tags := names[..|names| - 1], names[|names| - 1], Firsts(names[..|names| - 1]);
    FirstsAreTheNames(before);
    if j < |tags| {
      FirstsAreInOrder(before, i, j);
      var a :| 0 <= a < |before| && before[a] == tags[i] && tags[j] !in before[..a + 1];
      assert names[a] == tags[i] && names[..a + 1] == before[..a + 1];
    } else {
      assert tags[i] in tags;
      var a :| 0 <= a < |before| && before[a] == tags[i];
      assert names[a] == tags[i];
      assert names[..a + 1] == before[..a + 1];
    }
  }

  /** A store that began empty and was asked for `names`, and nothing else. */
  ghost predicate Holds(store: TagStore, names: seq<Tag>)
    reads store.Parts()
  {
    true == (
      && store.Persistent() && Padded(store.buf.writeBuf.State()) && store.tags == Firsts(names)
      && (store.buf.writeBuf.page.None? || Compact(store.buf.writeBuf.State(), store.buf.pageSize)))
  }

  /** Asks for one more name. */
  method CreateOne(store: TagStore, ghost names: seq<Tag>, tag: Tag)
    requires Holds(store, names)
    modifies store.Parts()
    ensures Holds(store, names + [tag])
  {
    assert (names + [tag])[..|names|] == names;
    RecordKeepsPadding(store.buf.writeBuf.State(), tag, store.buf.pageSize);
    var ok, id := store.GetOrCreateTag(tag);
  }

  method CreateEach(store: TagStore, names: seq<Tag>)
    requires Holds(store, [])
    modifies store.Parts()
    ensures Holds(store, names)
  {
    for i := 0 to |names|
      invariant Holds(store, names[..i])
    {
      CreateOne(store, names[..i], names[i]);
      assert names[..i + 1] == names[..i] + [names[i]];
    }
    assert names[..|names|] == names;
  }

  /** The file of a store: its records and zeros up to a page boundary. */
  lemma FileOf(store: TagStore, names: seq<Tag>)
    requires Holds(store, names)
    ensures store.Valid() && store.buf.pageSize > 0 && store.tags == Firsts(names)
    ensures var bytes := store.buf.writeBuf.file.bytes;
            |bytes| % store.buf.pageSize == 0 && bytes == FileBytes(store.tags, store.buf.pageSize)
  {
    var bytes, n, p := store.buf.writeBuf.file.bytes, store.buf.available, store.buf.pageSize;
    store.buf.Bounds();
    ZeroTail(bytes, n);
    PaddingIs(n, |bytes| - n, p);
  }

  lemma ZeroTail(bytes: seq<Byte>, n: nat)
    requires n <= |bytes| && forall i :: n <= i < |bytes| ==> bytes[i] == 0
    ensures bytes == bytes[..n] + Zeros(|bytes| - n)
  {
  }

  /** A store on an existing file, before `Restore`. */
  method Open(p: nat, file: MappedFile) returns (store: TagStore)
    requires p > 0 && |file.bytes| % p == 0
    ensures store.Valid() && store.buf.Valid() && store.tags == [] && store.buf.writeBuf.page.None?
    ensures store.buf.writeBuf.file == file && store.buf.pageSize == p && file.bytes == old(file.bytes)
    ensures |file.bytes| == 0 ==> Holds(store, [])
    ensures fresh(store.Parts() - {file})
  {
    var lru := new LRUCache(p, 1);
    var buf := new LogRWStream(p, |file.bytes|, file, Lru(lru));
    store := new TagStore(buf);
  }

  /** A second store, opened on the file of another one, reads it back. */
  method Reopen(p: nat, file: MappedFile, ghost written: seq<Tag>) returns (store: TagStore, ok: bool, off: nat, fault: bool)
    requires p > 0 && Storable(written)
    requires |file.bytes| % p == 0 && file.bytes == FileBytes(written, p)
    modifies file
    ensures store.Valid() && store.buf.writeBuf.file == file && fresh(store.Parts() - {file})
    ensures !fault && store.tags == written[..FirstEmpty(written)]
    ensures ok && store.tags == written <==> [] !in written && GoodPadding(Padding(|Encoded(written)|, p))
    ensures off == |Encoded(store.tags)|
    ensures if ok then store.buf.writeBuf.State() == Positioned(FileBytes(written, p), off, p) else file.bytes == FileBytes(written, p)
  {
    store := Open(p, file);
    RestoredExactlyWhen(written, Padding(|Encoded(written)|, p));
    ok, off, fault := store.Restore();
  }

  /** Both tables give a tag the same id, and the id the tag. */
  ghost predicate SameIds(first: TagStore, second: TagStore)
    reads first, second
  {
    && (forall t :: t in first.tagToId <==> t in second.tagToId)
    && (forall t :: t in second.tagToId ==> second.tagToId[t] == first.tagToId[t] && second.GetTag(second.tagToId[t]) == t)
    && (forall id :: 0 <= id < |second.tags| ==> second.tags[id] in first.tagToId && first.tagToId[second.tags[id]] == id)
  }

  lemma SameTables(first: TagStore, second: TagStore)
    requires Indexed(first.tags, first.tagToId) && Indexed(second.tags, second.tagToId)
    requires first.tags == second.tags && Distinct(first.tags)
    ensures SameIds(first, second)
  {
    MutuallyInverse(first.tags, first.tagToId);
    MutuallyInverse(second.tags, second.tagToId);
  }

  /**
    A store over an empty file that is asked for `names`, and a second store that is opened on
    that file.  The first has the names that are not too long, in the order of their first
    occurrence.  The second finds the tags before the first empty one; it finds all of them,
    under the same ids, exactly when no name is empty and the zeros behind the last record are
    none or have room for a length.
   */
  method WriteAndReopen(p: nat, names: seq<Tag>) returns (first: TagStore, second: TagStore, ok: bool, off: nat, fault: bool)
    requires p > 0
    ensures first.buf.writeBuf.file == second.buf.writeBuf.file && second.Valid() && !fault
    ensures first.tags == Firsts(names) && Indexed(first.tags, first.tagToId)
    ensures second.tags == first.tags[..FirstEmpty(first.tags)]
    ensures ok && second.tags == first.tags <==> [] !in names && GoodPadding(Padding(|Encoded(first.tags)|, p))
    ensures ok && second.tags == first.tags ==> SameIds(first, second)
    ensures off == |Encoded(second.tags)|
    ensures var file := FileBytes(first.tags, p);
            if ok then second.buf.writeBuf.State() == Positioned(file, off, p) else second.buf.writeBuf.file.bytes == file
  {
    var file := new MappedFile([]);
    first := Open(p, file);
    CreateEach(first, names);
    FileOf(first, names);
    FirstsAreTheNames(names);
    second, ok, off, fault := Reopen(p, file, first.tags);
    if second.tags == first.tags { SameTables(first, second); }
  }
}
