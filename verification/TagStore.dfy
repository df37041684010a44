/**
  The tag log of src/main/cache/tagcache.h:96-202: every new tag is appended to a paged
  log as an 8-byte length followed by its characters, and a store that is opened again
  rebuilds its table from that file.
 */
module TagStore {
  import opened Sequences
  import opened Words
  import opened WriteBuffer
  import opened RWStream

  type Tag = seq<Byte>

  const MAX_TAG_LEN: nat := 128
  const SIZE_LEN: nat := 8  // sizeof(size_t)

  function Record(tag: Tag): (s: seq<Byte>) { LittleEndian(|tag|, SIZE_LEN) + tag }

  /** A record byte by byte: the length in its first byte, seven zeros, and the characters. */
  lemma {:induction false} RecordBytes(tag: Tag)
    requires |tag| <= MAX_TAG_LEN
    ensures Record(tag) == [ToByte(|tag|), 0, 0, 0, 0, 0, 0, 0] + tag
  {
    var l := LittleEndian(|tag|, SIZE_LEN);
    LittleEndianAt(|tag|, SIZE_LEN, 0);
    forall i | 0 < i < SIZE_LEN ensures l[i] == 0 {
      LittleEndianAt(|tag|, SIZE_LEN, i);
      NoHighByte(|tag|, Pow256(i), Pow256(i - 1));
    }
    assert l[0] == ToByte(|tag|);
  }

  /** The file contents for a list of tags. */
  function Encoded(tags: seq<Tag>): (s: seq<Byte>)
  {
    if tags == [] then [] else Record(tags[0]) + Encoded(tags[1..])
  }

  lemma {:induction false} EncodedAppend(tags: seq<Tag>, tag: Tag)
    ensures Encoded(tags + [tag]) == Encoded(tags) + Record(tag)
  {
    if tags == [] {
      assert [tag][1..] == [];
    } else {
      EncodedAppend(tags[1..], tag);
      assert (tags + [tag])[1..] == tags[1..] + [tag];
    }
  }

  /**
    How reading a file ended: the answer, the tags read, the offset reached, and whether the
    copy of a tag faulted because its length points past the end of the file.
   */
  datatype Parsed = Parsed(ok: bool, tags: seq<Tag>, off: nat, fault: bool)

  /** Reading the records of a file from `off` on. */
  ghost function Parse(bytes: seq<Byte>, off: nat): (r: Parsed)
    decreases |bytes| - off
  {
    if off >= |bytes| then Parsed(true, [], off, false)
    else if |bytes| - off < SIZE_LEN then Parsed(false, [], off, false)
    else
      var len := FromLittleEndian(bytes[off..off + SIZE_LEN]);
      var at := off + SIZE_LEN;
      if len == 0 then Parsed(true, [], off, false)
      else if len > MAX_TAG_LEN then Parsed(false, [], at, false)
      else if at + len > |bytes| then Parsed(false, [], at, true)
      else
        var rest := Parse(bytes, at + len);
        Parsed(rest.ok, [bytes[at..at + len]] + rest.tags, rest.off, rest.fault)
  }

  /** Ids and tags: every tag of the list is known under the position of its first occurrence. */
  ghost predicate Indexed(tags: seq<Tag>, ids: map<Tag, nat>)
  {
    && (forall t :: t in ids <==> t in tags)
    && (forall t :: t in ids ==> ids[t] < |tags| && tags[ids[t]] == t && t !in tags[..ids[t]])
  }

  /** `unordered_map::insert`: a key that is there keeps its value. */
  function Insert(ids: map<Tag, nat>, tag: Tag, id: nat): map<Tag, nat>
  {
    if tag in ids then ids else ids[tag := id]
  }

  lemma InsertIndexed(tags: seq<Tag>, ids: map<Tag, nat>, tag: Tag)
    requires Indexed(tags, ids)
    ensures Indexed(tags + [tag], Insert(ids, tag, |tags|))
  {
    var ids' := Insert(ids, tag, |tags|);
    forall t | t in ids' ensures ids'[t] < |tags + [tag]| && (tags + [tag])[ids'[t]] == t && t !in (tags + [tag])[..ids'[t]] {
      if t in ids {
        assert (tags + [tag])[..ids[t]] == tags[..ids[t]];
      } else {
        assert (tags + [tag])[..|tags|] == tags;
      }
    }
  }

  class TagStore {
    const buf: LogRWStream
    var nextId: nat
    var tags: seq<Tag>
    var tagToId: map<Tag, nat>

    constructor (buf: LogRWStream)
      requires buf.Valid() && buf.cache.Lru?
      ensures Valid() && this.buf == buf && tags == []
    {
      this.buf := buf;
      nextId, tags, tagToId := 0, [], map[];
    }

    ghost function Parts(): (s: set<object>) { {this} + buf.Parts() }

    ghost predicate Valid()
      reads Parts()
    {
      true == (buf.Sound() && buf.cache.Lru? && nextId == |tags| && Indexed(tags, tagToId))
    }

    /** The log holds exactly the tags of the table: the state of a store that began with an empty file. */
    ghost predicate Persistent()
      reads Parts()
    {
      true == (Valid() && buf.Valid() && buf.Log() == Encoded(tags))
    }

    function GetTag(id: nat): (tag: Tag)
      reads this
    {
      if id < |tags| then tags[id] else []
    }

    method FindTag(tag: Tag) returns (ok: bool, id: nat)
      requires Valid()
      ensures ok <==> tag in tags
      ensures ok ==> id < |tags| && GetTag(id) == tag && tag !in tags[..id]
    {
      ok := tag in tagToId;
      id := if ok then tagToId[tag] else 0;
    }

    method Append(tag: Tag) returns (ok: bool, id: nat)
      requires Valid()
      modifies Parts()
      ensures Valid() && ok == (|tag| <= MAX_TAG_LEN)
      ensures !ok ==> tags == old(tags) && buf.writeBuf.State() == old(buf.writeBuf.State())
      ensures ok ==> id == |old(tags)| && tags == old(tags) + [tag]
      ensures ok ==> buf.writeBuf.State() == Recorded(old(buf.writeBuf.State()), tag, buf.pageSize)
      ensures old(Persistent()) ==> Persistent()
      ensures old(Persistent()) && ok ==> buf.Log() == old(buf.Log()) + ([ToByte(|tag|), 0, 0, 0, 0, 0, 0, 0] + tag)
    {
      if |tag| > MAX_TAG_LEN { return false, 0; }
      RecordBytes(tag);
      PushRecord(tag);
      EncodedAppend(tags, tag);
      id := AddTag(tag);
      ok := true;
    }

    /** The length and the characters, in two pushes. */
    method PushRecord(tag: Tag)
      requires buf.Sound() && |tag| <= MAX_TAG_LEN
      modifies buf.Parts()
      ensures buf.Sound() && buf.writeBuf.State() == Recorded(old(buf.writeBuf.State()), tag, buf.pageSize)
      ensures old(buf.Valid()) ==> buf.Valid() && buf.Log() == old(buf.Log()) + ([ToByte(|tag|), 0, 0, 0, 0, 0, 0, 0] + tag)
    {
      RecordBytes(tag);
      ghost var log := if buf.Valid() then buf.Log() else [];
      var l := LittleEndian(|tag|, SIZE_LEN);
      var r := buf.Push(l);
      r := buf.Push(tag);
      Regroup(log, l, tag);
    }

    /** The table entry for a tag that has been written or read. */
    method AddTag(tag: Tag) returns (id: nat)
      requires Valid()
      modifies this
      ensures Valid() && id == |old(tags)| && tags == old(tags) + [tag]
    {
      InsertIndexed(tags, tagToId, tag);
      id := nextId;
      nextId := nextId + 1;
      tags, tagToId := tags + [tag], Insert(tagToId, tag, id);
    }

    method GetOrCreateTag(tag: Tag) returns (ok: bool, id: nat)
      requires Valid()
      modifies Parts()
      ensures Valid() && ok == (tag in old(tags) || |tag| <= MAX_TAG_LEN)
      ensures ok ==> id < |tags| && GetTag(id) == tag && tag !in tags[..id]
      ensures tags == if ok && tag !in old(tags) then old(tags) + [tag] else old(tags)
      ensures buf.writeBuf.State() == if ok && tag !in old(tags) then Recorded(old(buf.writeBuf.State()), tag, buf.pageSize)
                                      else old(buf.writeBuf.State())
      ensures old(Persistent()) ==> Persistent()
    {
      ok, id := FindTag(tag);
      if ok { return; }
      ok, id := Append(tag);
    }

    /** What reading the file of a store just opened yields. */
    ghost function FileContents(): (r: Parsed)
      requires Valid() && buf.Valid()
      reads Parts()
    {
      Parse(buf.writeBuf.file.bytes, 0)
    }

    /**
      Rebuilds the table of a store just opened from its file, and moves the write position
      behind the last record.  A record whose length points past the end of the file makes the
      copy fault; the table then has the tags before it.
     */
    method Restore() returns (ok: bool, off: nat, fault: bool)
      requires Valid() && buf.Valid() && buf.writeBuf.page.None?
      modifies Parts()
      ensures Valid()
      ensures ok == old(FileContents()).ok && off == old(FileContents()).off && fault == old(FileContents()).fault
      ensures tags == old(tags) + old(FileContents()).tags
      ensures ok ==> buf.writeBuf.State() == Positioned(old(buf.writeBuf.file.bytes), off, buf.pageSize)
      ensures !ok ==> buf.writeBuf.State() == old(buf.writeBuf.State())
    {
      ghost var w := buf.writeBuf.State();
      ok, off, fault := true, 0, false;
      var more := true;
      ghost var got: seq<Tag> := [];
      while more
        invariant Restoring(w, old(tags), got, ok, more, off, fault)
        decreases more, |w.bytes| - off
      {
        var tag;
        ok, more, off, tag, fault := ReadRecord(off);
        if more {
          var id := AddTag(tag.value);
          Appended(old(tags), got, tag.value);
          got := got + [tag.value];
        }
      }
      if ok {
        ParseInside(w.bytes, 0);
        buf.SetPosition(off);
      }
    }

    /** What has been read so far, with what is still to be read, is what the file holds. */
    ghost predicate Restoring(w: WriteState, before: seq<Tag>, got: seq<Tag>, ok: bool, more: bool, off: nat, fault: bool)
      reads Parts()
    {
      true == (
        && Valid() && buf.Valid() && buf.writeBuf.State() == w && w.page.None?
        && tags == before + got
        && Parse(w.bytes, 0) ==
             if more then After(got, Parse(w.bytes, off)) else Parsed(ok, got, off, fault))
    }

    /** One turn of the loop of `Restore`: whether it goes on, and with which tag. */
    method ReadRecord(off: nat) returns (ok: bool, more: bool, off': nat, tag: Option<Tag>, fault: bool)
      requires Valid() && buf.Valid() && buf.writeBuf.page.None?
      modifies buf.CacheParts()
      ensures Valid() && buf.Valid() && buf.writeBuf.State() == old(buf.writeBuf.State())
      ensures RecordRead(buf.writeBuf.file.bytes, off, ok, more, off', tag, fault)
    {
      buf.Bounds();
      ShortRecord(buf.writeBuf.file.bytes, off);
      ok, more, off', tag, fault := off >= buf.available, false, off, None, false;
      if buf.available >= off + SIZE_LEN { ok, more, off', tag, fault := ReadLong(off); }
    }

    /** The case of a length that is there. */
    method ReadLong(off: nat) returns (ok: bool, more: bool, off': nat, tag: Option<Tag>, fault: bool)
      requires Valid() && buf.Valid() && buf.writeBuf.page.None? && off + SIZE_LEN <= buf.available
      modifies buf.CacheParts()
      ensures Valid() && buf.Valid() && buf.writeBuf.State() == old(buf.writeBuf.State())
      ensures RecordRead(buf.writeBuf.file.bytes, off, ok, more, off', tag, fault)
    {
      var len := ReadLength(off);
      LongRecord(buf.writeBuf.file.bytes, off, len);
      ok, more, off', tag, fault := len <= MAX_TAG_LEN, false, if len == 0 then off else off + SIZE_LEN, None, false;
      if 0 < len <= MAX_TAG_LEN {
        var t;
        ok, t, fault := ReadTag(off + SIZE_LEN, len);
        if ok { more, tag, off' := true, Some(t), off + SIZE_LEN + len; }
      }
    }

    /** The length in front of a tag. */
    method ReadLength(off: nat) returns (len: nat)
      requires Valid() && buf.Valid() && buf.writeBuf.page.None? && off + SIZE_LEN <= buf.available
      modifies buf.CacheParts()
      ensures Valid() && buf.Valid() && buf.writeBuf.State() == old(buf.writeBuf.State())
      ensures off + SIZE_LEN <= |buf.writeBuf.file.bytes|
      ensures len == FromLittleEndian(buf.writeBuf.file.bytes[off..off + SIZE_LEN])
    {
      buf.Bounds();
      var ok, l, fault := buf.Pop(off, SIZE_LEN);
      len := FromLittleEndian(l);
    }

    /** The characters of a tag. */
    method ReadTag(at: nat, len: nat) returns (ok: bool, tag: Tag, fault: bool)
      requires Valid() && buf.Valid() && buf.writeBuf.page.None? && len > 0 && at <= buf.available
      modifies buf.CacheParts()
      ensures Valid() && buf.Valid() && buf.writeBuf.State() == old(buf.writeBuf.State())
      ensures ok == !fault == (at + len <= |buf.writeBuf.file.bytes|)
      ensures ok ==> tag == buf.writeBuf.file.bytes[at..at + len]
    {
      buf.FaultsExactlyWhen(at, len);
      ok, tag, fault := buf.Pop(at, len);
    }
  }

  /** One turn of `Restore` did what `Parse` does at `off`: it read a tag and goes on at `off'`, or it ended. */
  ghost predicate RecordRead(bytes: seq<Byte>, off: nat, ok: bool, more: bool, off': nat, tag: Option<Tag>, fault: bool)
  {
    true == (
      if more then tag.Some? && off < off' && off < |bytes| && Parse(bytes, off) == After([tag.value], Parse(bytes, off'))
      else Parse(bytes, off) == Parsed(ok, [], off', fault))
  }

  lemma ShortRecord(bytes: seq<Byte>, off: nat)
    ensures off >= |bytes| ==> RecordRead(bytes, off, true, false, off, None, false)
    ensures off < |bytes| < off + SIZE_LEN ==> RecordRead(bytes, off, false, false, off, None, false)
  {
  }

  lemma LongRecord(bytes: seq<Byte>, off: nat, len: nat)
    requires off + SIZE_LEN <= |bytes| && FromLittleEndian(bytes[off..off + SIZE_LEN]) == len
    ensures var at := off + SIZE_LEN;
            && (len == 0 ==> RecordRead(bytes, off, true, false, off, None, false))
            && (len > MAX_TAG_LEN ==> RecordRead(bytes, off, false, false, at, None, false))
            && (0 < len <= MAX_TAG_LEN && at + len > |bytes| ==> RecordRead(bytes, off, false, false, at, None, true))
            && (0 < len <= MAX_TAG_LEN && at + len <= |bytes| ==> RecordRead(bytes, off, true, true, at + len, Some(bytes[at..at + len]), false))
  {
  }

  /** Reading never gets past the end of the file. */
  lemma {:induction false} ParseInside(bytes: seq<Byte>, off: nat)
    requires off <= |bytes|
    ensures off <= Parse(bytes, off).off <= |bytes|
    decreases |bytes| - off
  {
    if |bytes| - off >= SIZE_LEN {
      var len := FromLittleEndian(bytes[off..off + SIZE_LEN]);
      if 0 < len <= MAX_TAG_LEN && off + SIZE_LEN + len <= |bytes| { ParseInside(bytes, off + SIZE_LEN + len); }
    }
  }

  /** Reading on after `got`. */
  function After(got: seq<Tag>, rest: Parsed): Parsed { Parsed(rest.ok, got + rest.tags, rest.off, rest.fault) }

  lemma Appended(before: seq<Tag>, got: seq<Tag>, tag: Tag)
    ensures (before + got) + [tag] == before + (got + [tag])
    ensures forall rest: seq<Tag> :: got + ([tag] + rest) == (got + [tag]) + rest
  {
  }

  /** The two pushes of one record. */
  ghost function Recorded(w: WriteState, tag: Tag, p: nat): (r: WriteState)
    requires w.Mapped(p) && (w.Linear(p) || w.Repositioned(p))
  {
    PushKeepsShape(w, LittleEndian(|tag|, SIZE_LEN), p);
    w.Pushed(LittleEndian(|tag|, SIZE_LEN), p).Pushed(tag, p)
  }

  /** A push leaves a state that can be pushed to again. */
  lemma PushKeepsShape(w: WriteState, data: seq<Byte>, p: nat)
    requires w.Mapped(p) && (w.Linear(p) || w.Repositioned(p))
    ensures var r := w.Pushed(data, p); r.Mapped(p) && (r.Linear(p) || r.Repositioned(p))
  {
    if w.Linear(p) {
      PushAppends(w, data, p);
    } else if w.pos + |data| <= p {
      PushFits(w, data, p);
    } else {
      PushOverflows(w, data, p);
    }
  }
}
