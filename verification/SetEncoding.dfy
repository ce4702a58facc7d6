/**
 The dual-encoded set. Small sets are a packed buffer of length-prefixed members, large ones an
 insertion-ordered hash set that fills a removed slot with its last member. Clients see a set.
 */
module SetEncoding {
  import opened ByteStrings
  import opened Packed

  /** The process-wide thresholds as one call reads them. */
  datatype SetThresholds = SetThresholds(maxEntries: nat, maxSize: nat, maxValue: nat, demoteEntries: nat)

  /** Every length fits its 32-bit prefix. */
  ghost predicate Prefixable(s: seq<Bytes>) {
    forall x :: x in s ==> |x| < TWO_32
  }

  /** `s` without index `j`, order kept. */
  function Cut(s: seq<Bytes>, j: nat): seq<Bytes>
    requires j < |s|
  {
    s[..j] + s[j + 1..]
  }

  /** `s` without index `j`, the last element taking its place. */
  function SwapCut(s: seq<Bytes>, j: nat): seq<Bytes>
    requires j < |s|
  {
    var n := |s| - 1;
    if j == n then s[..n] else s[..n][j := s[n]]
  }

  lemma CutRemoves(s: seq<Bytes>, j: nat)
    requires j < |s| && NoDup(s)
    ensures NoDup(Cut(s, j)) && Elems(Cut(s, j)) == Elems(s) - {s[j]}
    ensures TotalLen(Cut(s, j)) == TotalLen(s) - |s[j]|
  {
    var r := Cut(s, j);
    CutNoDup(s, j);
    forall x ensures x in r <==> x in s && x != s[j] {
      if x in s && x != s[j] {
        var i :| 0 <= i < |s| && s[i] == x;
        assert r[if i < j then i else i - 1] == x;
      }
    }
    TotalLenAt(s, j);
    EncodeAppend(s[..j], s[j + 1..]);
  }

  lemma CutNoDup(s: seq<Bytes>, j: nat)
    requires j < |s| && NoDup(s)
    ensures NoDup(Cut(s, j)) && s[j] !in Cut(s, j)
  {
    var r := Cut(s, j);
    assert forall i :: 0 <= i < |r| ==> r[i] == s[if i < j then i else i + 1];
  }

  lemma SwapCutRemoves(s: seq<Bytes>, j: nat)
    requires j < |s| && NoDup(s)
    ensures NoDup(SwapCut(s, j)) && Elems(SwapCut(s, j)) == Elems(s) - {s[j]}
    ensures TotalLen(SwapCut(s, j)) == TotalLen(s) - |s[j]|
    ensures Prefixable(s) ==> Prefixable(SwapCut(s, j))
  {
    SwapCutNoDup(s, j);
    SwapCutElems(s, j);
    SumLenSplit(Elems(s), s[j]);
    ListingMeasures(s);
    ListingMeasures(SwapCut(s, j));
  }

  lemma SwapCutNoDup(s: seq<Bytes>, j: nat)
    requires j < |s| && NoDup(s)
    ensures NoDup(SwapCut(s, j)) && s[j] !in SwapCut(s, j)
  {
    var r := SwapCut(s, j);
    assert forall i :: 0 <= i < |r| ==> r[i] == s[if i == j then |s| - 1 else i];
  }

  lemma SwapCutElems(s: seq<Bytes>, j: nat)
    requires j < |s| && NoDup(s)
    ensures Elems(SwapCut(s, j)) == Elems(s) - {s[j]}
  {
    var r := SwapCut(s, j);
    SwapCutNoDup(s, j);
    forall x | x in s && x != s[j] ensures x in r {
      var i :| 0 <= i < |s| && s[i] == x;
      assert r[if i == |s| - 1 then j else i] == x;
    }
  }

  // ---- The packed encoding ----

  class CompactSet {
    var buf: Bytes
    var len: nat
    var bytes: nat
    ghost var members: seq<Bytes>

    ghost predicate Valid()
      reads this
    {
      buf == Encode(members) && len == |members| && bytes == TotalLen(members) &&
      NoDup(members) && Prefixable(members)
    }

    constructor ()
      ensures Valid() && members == []
    {
      buf, len, bytes, members := [], 0, 0, [];
    }

    /** Decodes the member at offset `off`, which is number `i`. */
    method At(off: nat, ghost i: nat) returns (m: Bytes)
      requires Valid() && i < |members| && off == Pos(members, i)
      ensures m == members[i] && off + 4 + |m| == Pos(members, i + 1) <= |buf|
      ensures buf[off..off + 4 + |m|] == Elem(m)
    {
      StoresAt(buf, 0, members, i);
      ElemReadsBack(buf, off, members[i]);
      PosStep(members, i);
      var n := ReadU32(buf, off);
      m := buf[off + 4..off + 4 + n];
    }

    method Append(m: Bytes)
      requires Valid() && m !in members && |m| < TWO_32
      modifies this
      ensures Valid() && members == old(members) + [m]
    {
      StoresSnoc(buf, 0, members, m);
      SnocAdds(members, m);
      buf := buf + U32Le(Low32(|m|)) + m;
      len, bytes, members := len + 1, bytes + |m|, members + [m];
    }

    method Contains(m: Bytes) returns (r: bool)
      requires Valid()
      ensures r <==> m in members
    {
      var off := 0;
      for i := 0 to len
        invariant off == Pos(members, i) && m !in members[..i]
      {
        var x := At(off, i);
        if x == m { return true; }
        off := off + 4 + |x|;
      }
      return false;
    }

    method Insert(m: Bytes) returns (isNew: bool, delta: int)
      requires Valid() && |m| < TWO_32
      modifies this
      ensures Valid() && (isNew <==> m !in old(members)) && delta == TotalLen(members) as int - TotalLen(old(members)) as int
      ensures members == if isNew then old(members) + [m] else old(members)
    {
      var there := Contains(m);
      if there { return false, 0; }
      SnocAdds(members, m);
      Append(m);
      return true, |m|;
    }

    /** Rebuilds the buffer without the first match. */
    method Rebuild(m: Bytes) returns (found: bool, newBuf: Bytes, newLen: nat, newBytes: nat, ghost kept: seq<Bytes>)
      requires Valid()
      ensures Sifted(members, |members|, m, kept, found)
      ensures newBuf == Encode(kept) && newLen == |kept| && newBytes == TotalLen(kept)
    {
      found, newBuf, newLen, newBytes, kept := false, [], 0, 0, [];
      var off := 0;
      for i := 0 to len
        invariant off == Pos(members, i)
        invariant newBuf == Encode(kept) && newLen == |kept| && newBytes == TotalLen(kept)
        invariant Sifted(members, i, m, kept, found)
      {
        var x := At(off, i);
        SiftStep(members, i, m, kept, found);
        EncodeAppend(kept, [x]);
        EncodeOne(x);
        if !found && x == m {
          found := true;
        } else {
          newBuf := newBuf + buf[off..off + 4 + |x|];
          newLen, newBytes, kept := newLen + 1, newBytes + |x|, kept + [x];
        }
        off := off + 4 + |x|;
      }
    }

    method Remove(m: Bytes) returns (found: bool, delta: int)
      requires Valid()
      modifies this
      ensures Valid() && (found <==> m in old(members)) && Reduced(old(members), members, m, found)
      ensures delta == TotalLen(members) as int - TotalLen(old(members)) as int
    {
      var f, newBuf, newLen, newBytes, kept := Rebuild(m);
      SiftEnd(members, m, kept, f);
      if !f { return false, 0; }
      found, delta := true, newBytes as int - bytes as int;
      buf, len, bytes, members := newBuf, newLen, newBytes, kept;
    }

    method Nth(idx: nat) returns (r: Option<Bytes>)
      requires Valid()
      ensures r == if idx < |members| then Some(members[idx]) else None
    {
      if idx >= len { return None; }
      var off := 0;
      for i := 0 to len
        invariant off == Pos(members, i) && i <= idx
      {
        var x := At(off, i);
        if i == idx { return Some(x); }
        off := off + 4 + |x|;
      }
      return None;
    }

    method ToVec() returns (r: seq<Bytes>)
      requires Valid()
      ensures r == members
    {
      r := [];
      var off := 0;
      for i := 0 to len
        invariant off == Pos(members, i) && r == members[..i]
      {
        var x := At(off, i);
        r, off := r + [x], off + 4 + |x|;
      }
    }
  }

  // ---- The hash set ----

  class HashtableSet {
    var listed: seq<Bytes>
    var bytes: nat

    ghost predicate Valid()
      reads this
    {
      NoDup(listed) && Prefixable(listed) && bytes == TotalLen(listed)
    }

    constructor ()
      ensures Valid() && listed == []
    {
      listed, bytes := [], 0;
    }

    method Insert(m: Bytes) returns (isNew: bool, delta: int)
      requires Valid() && |m| < TWO_32
      modifies this
      ensures Valid() && (isNew <==> m !in old(listed)) && delta == TotalLen(listed) as int - TotalLen(old(listed)) as int
      ensures listed == if isNew then old(listed) + [m] else old(listed)
    {
      if m in listed { return false, 0; }
      SnocAdds(listed, m);
      listed, bytes := listed + [m], bytes + |m|;
      return true, |m|;
    }

    method SwapRemoveIndex(j: nat) returns (m: Bytes, delta: int)
      requires Valid() && j < |listed|
      modifies this
      ensures Valid() && m == old(listed)[j] && listed == SwapCut(old(listed), j)
      ensures delta == TotalLen(listed) as int - TotalLen(old(listed)) as int
    {
      m := listed[j];
      SwapCutRemoves(listed, j);
      listed, bytes := SwapCut(listed, j), SaturatingSub(bytes, |m|);
      delta := 0 - |m| as int;
    }
  }

  // ---- The dual encoding ----

  /** A table of members `s` that the thresholds let go back to the packed encoding. */
  ghost predicate Demotable(s: seq<Bytes>, thr: SetThresholds) {
    |s| <= thr.demoteEntries && TotalLen(s) <= thr.maxSize && forall x :: x in s ==> |x| <= thr.maxValue
  }

  /** The packed encoding of `s` takes one more member of `n` bytes. */
  ghost predicate Accepts(s: seq<Bytes>, n: nat, thr: SetThresholds) {
    n <= thr.maxValue && |s| < thr.maxEntries && TotalLen(s) + n <= thr.maxSize
  }

  /** Within the three limits on packed sets. */
  ghost predicate Fits(s: seq<Bytes>, thr: SetThresholds) {
    |s| <= thr.maxEntries && TotalLen(s) <= thr.maxSize && forall x :: x in s ==> |x| <= thr.maxValue
  }

  /** A new member leaves a packed set packed exactly when the larger set is within the limits. */
  lemma AcceptsIff(s: seq<Bytes>, m: Bytes, thr: SetThresholds)
    requires Fits(s, thr)
    ensures Accepts(s, |m|, thr) <==> Fits(s + [m], thr)
  {
    TotalLenSnoc(s, m);
    assert m in s + [m] && forall x :: x in s ==> x in s + [m];
  }

  /** Copies a listing into a packed set. */
  method PackSet(s: seq<Bytes>) returns (c: CompactSet)
    requires NoDup(s) && Prefixable(s)
    ensures fresh(c) && c.Valid() && c.members == s
  {
    c := new CompactSet();
    for i := 0 to |s|
      invariant fresh(c) && c.Valid() && c.members == s[..i]
    {
      c.Append(s[i]);
    }
  }

  /** Copies a listing into a table; the byte total is carried over. */
  method UnpackSet(s: seq<Bytes>, payload: nat) returns (t: HashtableSet)
    requires NoDup(s) && Prefixable(s) && payload == TotalLen(s)
    ensures fresh(t) && t.Valid() && t.listed == s
  {
    t := new HashtableSet();
    for i := 0 to |s|
      invariant fresh(t) && t.Valid() && t.listed == s[..i]
    {
      var _, _ := t.Insert(s[i]);
    }
    assert s[..|s|] == s;
    t.bytes := payload;
  }

  method FitsPacked(s: seq<Bytes>, payload: nat, thr: SetThresholds) returns (fits: bool)
    requires payload == TotalLen(s)
    ensures fits <==> Demotable(s, thr)
  {
    if |s| > thr.demoteEntries { return false; }
    for i := 0 to |s|
      invariant forall x :: x in s[..i] ==> |x| <= thr.maxValue
    {
      if |s[i]| > thr.maxValue { return false; }
    }
    return payload <= thr.maxSize;
  }

  /** `m` was added to `s`: whether that was new, and the exact change of the member bytes. */
  ghost predicate Grown(s: set<Bytes>, s': set<Bytes>, m: Bytes, isNew: bool, delta: int) {
    (isNew <==> m !in s) && s' == s + {m} && delta == SumLen(s') as int - SumLen(s) as int
  }

  /** Exactly one of `compact` and `table` is present: the source's two-variant enum, replaced in place. */
  class SetData {
    var compact: CompactSet?
    var table: HashtableSet?

    ghost predicate Valid()
      reads this, compact, table
    {
      && (compact == null) != (table == null)
      && (compact != null ==> compact.Valid())
      && (table != null ==> table.Valid())
    }

    /** The members in the order the encoding lists them. */
    ghost function Listing(): seq<Bytes>
      reads this, compact, table
    {
      if compact != null then compact.members else if table != null then table.listed else []
    }

    ghost function Contents(): set<Bytes>
      reads this, compact, table
    {
      Elems(Listing())
    }

    /** The storage after a call is the storage before it or newly allocated. */
    twostate predicate SameOrFresh()
      reads this
    {
      (compact != null ==> compact == old(compact) || fresh(compact)) &&
      (table != null ==> table == old(table) || fresh(table))
    }

    constructor ()
      ensures Valid() && Contents() == {} && fresh(compact) && table == null
    {
      compact := new CompactSet();
      table := null;
    }

    method Len() returns (n: nat)
      requires Valid()
      ensures n == |Contents()|
    {
      ListingMeasures(Listing());
      if compact != null { n := compact.len; } else { n := |table.listed|; }
    }

    method PayloadBytes() returns (n: nat)
      requires Valid()
      ensures n == SumLen(Contents()) && n == TotalLen(Listing())
    {
      ListingMeasures(Listing());
      if compact != null { n := compact.bytes; } else { n := table.bytes; }
    }

    method Contains(m: Bytes) returns (r: bool)
      requires Valid()
      ensures r <==> m in Contents()
    {
      if compact != null { r := compact.Contains(m); } else { r := m in table.listed; }
    }

    method EnsureHashtable()
      requires Valid()
      modifies this
      ensures Valid() && table != null && Listing() == old(Listing()) && SameOrFresh()
    {
      if compact != null {
        var payload := compact.bytes;
        var all := compact.ToVec();
        var t := UnpackSet(all, payload);
        compact, table := null, t;
      }
    }

    method MaybeDemote(thr: SetThresholds)
      requires Valid()
      modifies this
      ensures Valid() && Listing() == old(Listing()) && SameOrFresh()
      ensures compact != null <==> old(compact != null) || Demotable(Listing(), thr)
    {
      if table == null { return; }
      var s := table.listed;
      var fits := FitsPacked(s, table.bytes, thr);
      if !fits { return; }
      var c := PackSet(s);
      compact, table := c, null;
    }

    method PromoteFor(n: nat, thr: SetThresholds)
      requires Valid()
      modifies this
      ensures Valid() && Listing() == old(Listing()) && SameOrFresh()
      ensures compact != null <==> old(compact != null) && Accepts(Listing(), n, thr)
    {
      if compact != null && (n > thr.maxValue || compact.len + 1 > thr.maxEntries || compact.bytes + n > thr.maxSize) {
        EnsureHashtable();
      }
    }

    /** The reply, the new contents and the byte delta are those of a plain set; only a new member can promote. */
    method Insert(m: Bytes, thr: SetThresholds) returns (isNew: bool, delta: int)
      requires Valid() && |m| < TWO_32
      modifies this, compact, table
      ensures Valid() && SameOrFresh()
      ensures Listing() == if isNew then old(Listing()) + [m] else old(Listing())
      ensures Grown(old(Contents()), Contents(), m, isNew, delta)
      ensures compact != null <==> old(compact != null) && (isNew ==> Accepts(old(Listing()), |m|, thr))
    {
      ghost var s := Listing();
      var there := Contains(m);
      if there { return false, 0; }
      SnocAdds(s, m);
      ListingMeasures(s);
      ListingMeasures(s + [m]);
      PromoteFor(|m|, thr);
      if compact != null { isNew, delta := compact.Insert(m); } else { isNew, delta := table.Insert(m); }
    }

    method Remove(m: Bytes, thr: SetThresholds) returns (removed: bool, delta: int)
      requires Valid()
      modifies this, compact, table
      ensures Valid() && SameOrFresh()
      ensures removed <==> m in old(Contents())
      ensures Contents() == old(Contents()) - {m}
      ensures delta == SumLen(Contents()) as int - SumLen(old(Contents())) as int
      ensures compact != null <==> old(compact != null) || (removed && Demotable(Listing(), thr))
    {
      ghost var s := Listing();
      ListingMeasures(s);
      if compact != null {
        removed, delta := compact.Remove(m);
      } else {
        removed, delta := RemoveFromTable(m);
      }
      ListingMeasures(Listing());
      AfterCut(s, Listing(), m, removed);
      if removed { MaybeDemote(thr); }
    }

    method RemoveFromTable(m: Bytes) returns (removed: bool, delta: int)
      requires Valid() && table != null
      modifies table
      ensures Valid() && (removed <==> m in old(Listing()))
      ensures Reduced(old(Listing()), Listing(), m, removed)
      ensures delta == TotalLen(Listing()) as int - TotalLen(old(Listing())) as int
    {
      if m !in table.listed { return false, 0; }
      var j :| 0 <= j < |table.listed| && table.listed[j] == m;
      removed := true;
      var _, d := table.SwapRemoveIndex(j);
      delta := d;
    }

    /** SPOP by index: some member, and exactly that one goes. */
    method RemoveAt(idx: nat, thr: SetThresholds) returns (r: Option<Bytes>)
      requires Valid()
      modifies this, compact, table
      ensures Valid() && SameOrFresh()
      ensures r == if idx < |old(Listing())| then Some(old(Listing())[idx]) else None
      ensures Contents() == if r.Some? then old(Contents()) - {r.value} else old(Contents())
      ensures compact != null <==> old(compact != null) || (r.Some? && Demotable(Listing(), thr))
    {
      ghost var s := Listing();
      var n := Len();
      ListingMeasures(s);
      if n == 0 || idx >= n { return None; }
      if compact != null {
        r := compact.Nth(idx);
        var _, _ := compact.Remove(r.value);
      } else {
        var m, _ := table.SwapRemoveIndex(idx);
        r := Some(m);
      }
      AfterCut(s, Listing(), r.value, true);
      MaybeDemote(thr);
    }

    method GetAt(idx: nat) returns (r: Option<Bytes>)
      requires Valid()
      ensures r == if idx < |Listing()| then Some(Listing()[idx]) else None
    {
      if compact != null { r := compact.Nth(idx); } else { r := if idx < |table.listed| then Some(table.listed[idx]) else None; }
    }

    method ToVec() returns (r: seq<Bytes>)
      requires Valid()
      ensures r == Listing() && NoDup(r) && Elems(r) == Contents()
    {
      if compact != null { r := compact.ToVec(); } else { r := table.listed; }
    }
  }

  /** What a rebuild has kept after `i` members: all of them, or all but the first match. */
  ghost predicate Sifted(s: seq<Bytes>, i: nat, m: Bytes, kept: seq<Bytes>, found: bool) {
    i <= |s| &&
    if found then exists j :: 0 <= j < i && s[j] == m && kept == s[..j] + s[j + 1..i] else m !in s[..i] && kept == s[..i]
  }

  lemma SiftStep(s: seq<Bytes>, i: nat, m: Bytes, kept: seq<Bytes>, found: bool)
    requires i < |s| && Sifted(s, i, m, kept, found)
    ensures if !found && s[i] == m then Sifted(s, i + 1, m, kept, true) else Sifted(s, i + 1, m, kept + [s[i]], found)
  {
    if found {
      var j :| 0 <= j < i && s[j] == m && kept == s[..j] + s[j + 1..i];
      KeepNext(s, j, i);
    } else if s[i] == m {
      assert kept == s[..i] + s[i + 1..i + 1];
    }
  }

  lemma SiftEnd(s: seq<Bytes>, m: Bytes, kept: seq<Bytes>, found: bool)
    requires NoDup(s) && Prefixable(s) && Sifted(s, |s|, m, kept, found)
    ensures Reduced(s, kept, m, found) && (found <==> m in s)
    ensures NoDup(kept) && Prefixable(kept)
  {
    if found {
      var j :| 0 <= j < |s| && s[j] == m && kept == s[..j] + s[j + 1..|s|];
      assert kept == Cut(s, j);
      CutNoDup(s, j);
    } else {
      assert s[..|s|] == s;
    }
  }

  /** One occurrence of `m` left the listing, in either encoding's way, or nothing did. */
  ghost predicate Reduced(s: seq<Bytes>, t: seq<Bytes>, m: Bytes, removed: bool) {
    if removed then exists j :: 0 <= j < |s| && s[j] == m && (t == Cut(s, j) || t == SwapCut(s, j)) else t == s
  }

  lemma AfterCut(s: seq<Bytes>, t: seq<Bytes>, m: Bytes, removed: bool)
    requires NoDup(s) && Reduced(s, t, m, removed) && (removed <==> m in s)
    ensures NoDup(t) && Elems(t) == Elems(s) - {m}
  {
    if removed {
      var j :| 0 <= j < |s| && s[j] == m && (t == Cut(s, j) || t == SwapCut(s, j));
      CutRemoves(s, j);
      SwapCutRemoves(s, j);
    }
  }
}
