/**
 The RESP printer. RESP3 has its own null, boolean, map, set and push frames; for a RESP2
 peer they degrade to the nearest older frame.
 */
module RespPrint {
  import opened ByteStrings
  import opened RespText
  import opened RespValue
  import opened RespStream

  function Header(tag: byte, n: nat): Bytes {
    [tag] + Decimal(n) + CRLF
  }

  function Line(tag: byte, text: Bytes): Bytes {
    [tag] + text + CRLF
  }

  /** The wire form of `v` for a peer that negotiated `version`. */
  function Print(v: Resp, version: nat): Bytes
    decreases v, 0
  {
    match v
    case SimpleString(s) => Line(SIMPLE, s)
    case Error(s) => Line(ERROR, s)
    case Integer(n) => Line(INTEGER, IntText(n))
    case NullBulk => if version >= 3 then Line(NULL, []) else Line(BULK, IntText(-1))
    case BulkString(d) => Header(BULK, |d|) + d + CRLF
    case NullArray => if version >= 3 then Line(NULL, []) else Line(ARRAY, IntText(-1))
    case Array(items) => Header(ARRAY, |items|) + PrintAll(items, version)
    case Null => Line(NULL, [])
    case Bool(b) =>
      if version >= 3 then Line(BOOL, [if b then LETTER_T else LETTER_F])
      else Line(INTEGER, IntText(if b then 1 else 0))
    case Double(s) => if version >= 3 then Line(DOUBLE, s) else Header(BULK, |s|) + s + CRLF
    case Map(pairs) =>
      (if version >= 3 then Header(MAP, |pairs|) else Header(ARRAY, 2 * |pairs|)) + PrintPairs(pairs, version)
    case Set(items) => Header(if version >= 3 then SET else ARRAY, |items|) + PrintAll(items, version)
    case Push(items) => Header(if version >= 3 then PUSH else ARRAY, |items|) + PrintAll(items, version)
    case Raw(wire) => wire
  }

  function PrintAll(items: seq<Resp>, version: nat): Bytes
    decreases items, 1
  {
    if items == [] then [] else Print(items[0], version) + PrintAll(items[1..], version)
  }

  function PrintPairs(pairs: seq<Pair>, version: nat): Bytes
    decreases pairs, 1
  {
    if pairs == [] then []
    else
      assert pairs[0].key < pairs[0] && pairs[0].val < pairs[0];
      Print(pairs[0].key, version) + (Print(pairs[0].val, version) + PrintPairs(pairs[1..], version))
  }

  lemma {:induction false} PrintAllSnoc(items: seq<Resp>, v: Resp, version: nat)
    ensures PrintAll(items + [v], version) == PrintAll(items, version) + Print(v, version)
  {
    if items == [] {
      assert items + [v] == [v] && [v][1..] == [];
    } else {
      assert (items + [v])[1..] == items[1..] + [v];
      PrintAllSnoc(items[1..], v, version);
    }
  }

  lemma {:induction false} PrintPairsSnoc(pairs: seq<Pair>, p: Pair, version: nat)
    ensures PrintPairs(pairs + [p], version)
      == PrintPairs(pairs, version) + (Print(p.key, version) + Print(p.val, version))
  {
    if pairs == [] {
      assert pairs + [p] == [p] && [p][1..] == [];
    } else {
      assert (pairs + [p])[1..] == pairs[1..] + [p];
      PrintPairsSnoc(pairs[1..], p, version);
    }
  }

  /**
   Segmented output: inline bytes gather in `active`, pre-serialized values become segments of
   their own, and a flush consumes from the front at (`readPos`, `readOffset`).
   */
  class SegBuf {
    var active: Bytes
    var segments: seq<Bytes>
    var readPos: nat
    var readOffset: nat

    ghost predicate Valid()
      reads this
    {
      readPos <= |segments| &&
      (if readPos < |segments| then readOffset <= |segments[readPos]| else readOffset == 0)
    }

    /** Everything written and not yet consumed. */
    ghost function Contents(): Bytes
      requires Valid()
      reads this
    {
      Flatten(segments[readPos..])[if readPos < |segments| then readOffset else 0..] + active
    }

    constructor ()
      ensures Valid() && Contents() == [] && readPos == 0 && readOffset == 0
    {
      active, segments, readPos, readOffset := [], [], 0, 0;
    }

    method Put(bytes: Bytes)
      requires Valid()
      modifies this`active
      ensures Valid() && Contents() == old(Contents()) + bytes
    {
      active := active + bytes;
    }

    /** Moves pending inline bytes into a segment of their own. */
    method Finalize()
      requires Valid()
      modifies this
      ensures Valid() && Contents() == old(Contents()) && active == []
      ensures readPos == old(readPos) && readOffset == old(readOffset)
    {
      if active != [] {
        ghost var live := segments[readPos..];
        FlattenSnoc(live, active);
        assert (segments + [active])[readPos..] == live + [active];
        FlattenCovers(segments, readPos);
        segments := segments + [active];
        active := [];
      }
    }

    method PushRaw(raw: Bytes)
      requires Valid()
      modifies this
      ensures Valid() && Contents() == old(Contents()) + raw
      ensures readPos == old(readPos) && readOffset == old(readOffset)
    {
      Finalize();
      FlattenSnoc(segments[readPos..], raw);
      assert (segments + [raw])[readPos..] == segments[readPos..] + [raw];
      FlattenCovers(segments, readPos);
      segments := segments + [raw];
    }

    /** A flush reported `cnt` bytes written: exactly those leave the front. */
    method Advance(cnt: nat)
      requires Valid() && cnt <= |Contents()|
      modifies this
      ensures Valid() && Contents() == old(Contents())[cnt..]
    {
      var left: nat := cnt;
      while left > 0
        invariant Valid() && left <= cnt && left <= |Contents()|
        invariant Contents()[left..] == old(Contents())[cnt..]
        decreases left + |segments| - readPos
      {
        if readPos < |segments| {
          var avail := |segments[readPos]| - readOffset;
          FrontSegment();
          if left < avail {
            ghost var before := Contents();
            readOffset := readOffset + left;
            assert Contents() == before[left..];
            return;
          }
          ghost var before := Contents();
          left := left - avail;
          readPos := readPos + 1;
          readOffset := 0;
          assert Contents() == before[avail..];
        } else {
          ghost var before := Contents();
          active := active[left..];
          assert Contents() == before[left..];
          return;
        }
      }
    }

    /** Before any flush, a finalized buffer is its segments. */
    lemma UnreadIsAll()
      requires Valid() && readPos == 0 && readOffset == 0 && active == []
      ensures Contents() == Flatten(segments)
    {
      assert segments[0..] == segments;
    }

    /** The unread part starts with the rest of the current segment. */
    lemma FrontSegment()
      requires Valid() && readPos < |segments|
      ensures |segments[readPos]| - readOffset <= |Contents()|
      ensures Contents() == segments[readPos][readOffset..] + (Flatten(segments[readPos + 1..]) + active)
    {
      assert segments[readPos..][1..] == segments[readPos + 1..];
    }
  }

  lemma FlattenCovers(segments: seq<Bytes>, i: nat)
    requires i <= |segments|
    ensures i < |segments| ==> |segments[i]| <= |Flatten(segments[i..])|
  {
  }

  /** The type byte of a counted aggregate. */
  function Tag(v: Resp, version: nat): byte
    requires v.Array? || v.Set? || v.Push?
  {
    if version < 3 || v.Array? then ARRAY else if v.Set? then SET else PUSH
  }

  /** Appends the wire form of `v`; a Raw value is handed over as a segment of its own. */
  method WriteTo(v: Resp, buf: SegBuf, version: nat)
    requires buf.Valid()
    modifies buf
    ensures buf.readPos == old(buf.readPos) && buf.readOffset == old(buf.readOffset)
    ensures buf.Valid() && buf.Contents() == old(buf.Contents()) + Print(v, version)
    decreases v, 0
  {
    ghost var before := buf.Contents();
    if v.Array? || v.Set? || v.Push? {
      var header := Header(Tag(v, version), |v.items|);
      buf.Put(header);
      WriteItems(v.items, buf, version);
      Assoc(before, header, PrintAll(v.items, version));
    } else if v.Map? {
      var header := if version >= 3 then Header(MAP, |v.pairs|) else Header(ARRAY, 2 * |v.pairs|);
      buf.Put(header);
      WritePairs(v.pairs, buf, version);
      Assoc(before, header, PrintPairs(v.pairs, version));
    } else if v.Raw? {
      buf.PushRaw(v.wire);
    } else if v.Integer? {
      var text := PutI64(v.n);
      buf.Put(Line(INTEGER, text));
    } else {
      buf.Put(Print(v, version));
    }
  }

  method WriteItems(items: seq<Resp>, buf: SegBuf, version: nat)
    requires buf.Valid()
    modifies buf
    ensures buf.readPos == old(buf.readPos) && buf.readOffset == old(buf.readOffset)
    ensures buf.Valid() && buf.Contents() == old(buf.Contents()) + PrintAll(items, version)
    decreases items, 1
  {
    for i := 0 to |items|
      invariant buf.readPos == old(buf.readPos) && buf.readOffset == old(buf.readOffset)
      invariant buf.Valid() && buf.Contents() == old(buf.Contents()) + PrintAll(items[..i], version)
    {
      PrintAllSnoc(items[..i], items[i], version);
      assert items[..i + 1] == items[..i] + [items[i]];
      WriteTo(items[i], buf, version);
    }
    assert items[..|items|] == items;
  }

  method WritePairs(pairs: seq<Pair>, buf: SegBuf, version: nat)
    requires buf.Valid()
    modifies buf
    ensures buf.readPos == old(buf.readPos) && buf.readOffset == old(buf.readOffset)
    ensures buf.Valid() && buf.Contents() == old(buf.Contents()) + PrintPairs(pairs, version)
    decreases pairs, 1
  {
    for i := 0 to |pairs|
      invariant buf.readPos == old(buf.readPos) && buf.readOffset == old(buf.readOffset)
      invariant buf.Valid() && buf.Contents() == old(buf.Contents()) + PrintPairs(pairs[..i], version)
    {
      PrintPairsSnoc(pairs[..i], pairs[i], version);
      assert pairs[..i + 1] == pairs[..i] + [pairs[i]];
      WritePair(pairs[i], buf, version);
    }
    assert pairs[..|pairs|] == pairs;
  }

  method WritePair(p: Pair, buf: SegBuf, version: nat)
    requires buf.Valid()
    modifies buf
    ensures buf.readPos == old(buf.readPos) && buf.readOffset == old(buf.readOffset)
    ensures buf.Valid() && buf.Contents() == old(buf.Contents()) + (Print(p.key, version) + Print(p.val, version))
    decreases p
  {
    Assoc(buf.Contents(), Print(p.key, version), Print(p.val, version));
    WriteTo(p.key, buf, version);
    WriteTo(p.val, buf, version);
  }

  /** Joins the segments of a fully finalized buffer. */
  method Join(segments: seq<Bytes>) returns (wire: Bytes)
    ensures wire == Flatten(segments)
  {
    wire := [];
    for i := 0 to |segments|
      invariant wire == Flatten(segments[..i])
    {
      assert segments[..i + 1] == segments[..i] + [segments[i]];
      FlattenSnoc(segments[..i], segments[i]);
      wire := wire + segments[i];
    }
    assert segments[..|segments|] == segments;
  }

  /** Serialization through the segmented buffer yields the wire form, however Raw values split it. */
  method Serialize(v: Resp, version: nat) returns (wire: Bytes)
    ensures wire == Print(v, version)
  {
    var buf := new SegBuf();
    WriteTo(v, buf, version);
    buf.Finalize();
    wire := Join(buf.segments);
    buf.UnreadIsAll();
  }
}
