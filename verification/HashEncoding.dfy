/**
 The dual-encoded hash. Small hashes are a packed buffer of length-prefixed fields and values,
 large ones a hash table. Clients see a map from fields to values.
 */
module HashEncoding {
  import opened ByteStrings
  import opened Packed

  datatype Pair = Pair(field: Bytes, value: Bytes)

  type Pairs = seq<Pair>

  type Fields = map<Bytes, Bytes>

  /** The process-wide thresholds as one call reads them. */
  datatype HashThresholds = HashThresholds(maxEntries: nat, maxSize: nat, maxValue: nat, demoteEntries: nat)

  // ---- Listings and the maps they stand for ----

  ghost predicate Distinct(ps: Pairs) {
    forall i, j :: 0 <= i < j < |ps| ==> ps[i].field != ps[j].field
  }

  /** Every length fits its 32-bit prefix. */
  ghost predicate Prefixable(ps: Pairs) {
    forall p :: p in ps ==> |p.field| < TWO_32 && |p.value| < TWO_32
  }

  ghost predicate HasField(ps: Pairs, f: Bytes) {
    exists i :: 0 <= i < |ps| && ps[i].field == f
  }

  function MapOf(ps: Pairs): Fields {
    if ps == [] then map[] else MapOf(ps[..|ps| - 1])[ps[|ps| - 1].field := ps[|ps| - 1].value]
  }

  lemma {:induction false} MapOfKeys(ps: Pairs, f: Bytes)
    ensures f in MapOf(ps) <==> HasField(ps, f)
    decreases |ps|
  {
    if ps != [] {
      var n := |ps| - 1;
      MapOfKeys(ps[..n], f);
      if HasField(ps[..n], f) {
        var i :| 0 <= i < n && ps[..n][i].field == f;
        assert ps[i].field == f;
      }
      if HasField(ps, f) && ps[n].field != f {
        var i :| 0 <= i < |ps| && ps[i].field == f;
        assert ps[..n][i].field == f;
      }
    }
  }

  lemma {:induction false} MapOfAt(ps: Pairs, i: nat)
    requires Distinct(ps) && i < |ps|
    ensures ps[i].field in MapOf(ps) && MapOf(ps)[ps[i].field] == ps[i].value
    decreases |ps|
  {
    var n := |ps| - 1;
    if i < n {
      MapOfAt(ps[..n], i);
      assert ps[..n][i] == ps[i];
    }
  }

  /** A listing with the same pairs, in any order, stands for the same map. */
  lemma MapOfDetermined(ps: Pairs, m: Fields)
    requires Distinct(ps)
    requires forall i :: 0 <= i < |ps| ==> ps[i].field in m && m[ps[i].field] == ps[i].value
    requires forall f :: f in m ==> HasField(ps, f)
    ensures MapOf(ps) == m
  {
    forall f ensures f in MapOf(ps) <==> f in m
      ensures f in m && f in MapOf(ps) ==> MapOf(ps)[f] == m[f]
    {
      MapOfKeys(ps, f);
      if HasField(ps, f) {
        var i :| 0 <= i < |ps| && ps[i].field == f;
        MapOfAt(ps, i);
      }
    }
  }

  lemma MapOfSnoc(ps: Pairs, p: Pair)
    requires Distinct(ps) && !HasField(ps, p.field)
    ensures Distinct(ps + [p]) && MapOf(ps + [p]) == MapOf(ps)[p.field := p.value]
  {
    assert (ps + [p])[..|ps|] == ps;
  }

  function Cut(ps: Pairs, j: nat): Pairs
    requires j < |ps|
  {
    ps[..j] + ps[j + 1..]
  }

  lemma CutDistinct(ps: Pairs, j: nat)
    requires Distinct(ps) && j < |ps|
    ensures Distinct(Cut(ps, j)) && !HasField(Cut(ps, j), ps[j].field)
    ensures Prefixable(ps) ==> Prefixable(Cut(ps, j))
  {
    var r := Cut(ps, j);
    assert forall i :: 0 <= i < |r| ==> r[i] == ps[if i < j then i else i + 1];
  }

  lemma CutKeeps(ps: Pairs, j: nat, f: Bytes)
    requires j < |ps| && f != ps[j].field && HasField(ps, f)
    ensures HasField(Cut(ps, j), f)
  {
    var i :| 0 <= i < |ps| && ps[i].field == f;
    assert Cut(ps, j)[if i < j then i else i - 1].field == f;
  }

  lemma MapOfCut(ps: Pairs, j: nat)
    requires Distinct(ps) && j < |ps|
    ensures Distinct(Cut(ps, j)) && MapOf(Cut(ps, j)) == MapOf(ps) - {ps[j].field}
  {
    CutDistinct(ps, j);
    var r, whole := Cut(ps, j), MapOf(ps);
    var m := whole - {ps[j].field};
    forall i | 0 <= i < |r| ensures r[i].field in m && m[r[i].field] == r[i].value {
      MapOfAt(ps, if i < j then i else i + 1);
      assert r[i].field in whole && whole[r[i].field] == r[i].value;
      assert HasField(r, r[i].field);
    }
    forall f | f in m ensures HasField(r, f) {
      MapOfKeys(ps, f);
      CutKeeps(ps, j, f);
    }
    MapOfDetermined(r, m);
  }

  lemma MapOfUpdate(ps: Pairs, j: nat, v: Bytes)
    requires Distinct(ps) && j < |ps|
    ensures var qs := ps[j := Pair(ps[j].field, v)]; Distinct(qs) && MapOf(qs) == MapOf(ps)[ps[j].field := v]
  {
    var qs, m := ps[j := Pair(ps[j].field, v)], MapOf(ps)[ps[j].field := v];
    forall i | 0 <= i < |qs| ensures qs[i].field in m && m[qs[i].field] == qs[i].value {
      MapOfAt(ps, i);
    }
    forall f | f in m ensures HasField(qs, f) {
      MapOfKeys(ps, f);
      if f != ps[j].field {
        var i :| 0 <= i < |ps| && ps[i].field == f;
        assert qs[i].field == f;
      } else {
        assert qs[j].field == f;
      }
    }
    MapOfDetermined(qs, m);
  }

  // ---- Field and value bytes ----

  /** The bytes of the fields `ks` and their values. */
  ghost function LenOver(ks: set<Bytes>, m: Fields): nat
    requires ks <= m.Keys
  {
    if ks == {} then 0 else
      var k :| k in ks;
      |k| + |m[k]| + LenOver(ks - {k}, m)
  }

  ghost function FieldsLen(m: Fields): nat {
    LenOver(m.Keys, m)
  }

  lemma {:induction false} LenOverSplit(ks: set<Bytes>, m: Fields, k: Bytes)
    requires ks <= m.Keys && k in ks
    ensures LenOver(ks, m) == |k| + |m[k]| + LenOver(ks - {k}, m)
    decreases |ks|
  {
    var j :| j in ks && LenOver(ks, m) == |j| + |m[j]| + LenOver(ks - {j}, m);
    if j != k {
      LenOverSplit(ks - {j}, m, k);
      LenOverSplit(ks - {k}, m, j);
      assert ks - {j} - {k} == ks - {k} - {j};
    }
  }

  lemma {:induction false} LenOverSame(ks: set<Bytes>, m: Fields, m': Fields)
    requires ks <= m.Keys && ks <= m'.Keys && forall k :: k in ks ==> m[k] == m'[k]
    ensures LenOver(ks, m) == LenOver(ks, m')
    decreases |ks|
  {
    if ks != {} {
      var k :| k in ks;
      LenOverSplit(ks, m, k);
      LenOverSplit(ks, m', k);
      LenOverSame(ks - {k}, m, m');
    }
  }

  lemma FieldsLenDrop(m: Fields, f: Bytes)
    requires f in m
    ensures FieldsLen(m) == |f| + |m[f]| + FieldsLen(m - {f}) && |m - {f}| == |m| - 1
  {
    var m' := m - {f};
    assert m'.Keys == m.Keys - {f};
    assert |m'| == |m'.Keys| && |m| == |m.Keys|;
    LenOverSplit(m.Keys, m, f);
    LenOverSame(m'.Keys, m, m');
  }

  lemma FieldsLenPut(m: Fields, f: Bytes, v: Bytes)
    ensures f in m ==> FieldsLen(m[f := v]) == FieldsLen(m) - |m[f]| + |v| && |m[f := v]| == |m| && |m[f]| <= FieldsLen(m)
    ensures f !in m ==> FieldsLen(m[f := v]) == FieldsLen(m) + |f| + |v| && |m[f := v]| == |m| + 1
  {
    FieldsLenDrop(m[f := v], f);
    assert m[f := v] - {f} == m - {f};
    if f in m { FieldsLenDrop(m, f); } else { assert m - {f} == m; }
  }

  /** A listing has the map's size and the map's bytes. */
  lemma {:induction false} PairsMeasures(ps: Pairs)
    requires Distinct(ps)
    ensures |MapOf(ps)| == |ps| && FieldsLen(MapOf(ps)) == PairsLen(ps)
    decreases |ps|
  {
    if ps != [] {
      var n := |ps| - 1;
      var p := ps[n];
      PairsMeasures(ps[..n]);
      MapOfKeys(ps[..n], p.field);
      FieldsLenPut(MapOf(ps[..n]), p.field, p.value);
      ImageSnoc(ps[..n], p);
      assert ps == ps[..n] + [p];
    }
  }

  // ---- Pairs back to back, as they are packed ----

  function Image(ps: Pairs): Bytes {
    if ps == [] then [] else Elem(ps[0].field) + Elem(ps[0].value) + Image(ps[1..])
  }

  function PairsLen(ps: Pairs): nat {
    if ps == [] then 0 else |ps[0].field| + |ps[0].value| + PairsLen(ps[1..])
  }

  lemma {:induction false} ImageAppend(a: Pairs, b: Pairs)
    ensures Image(a + b) == Image(a) + Image(b) && PairsLen(a + b) == PairsLen(a) + PairsLen(b)
    decreases |a|
  {
    if a == [] {
      assert a + b == b;
    } else {
      assert (a + b)[1..] == a[1..] + b;
      ImageAppend(a[1..], b);
    }
  }

  lemma ImageSnoc(ps: Pairs, p: Pair)
    ensures Image(ps + [p]) == Image(ps) + (Elem(p.field) + Elem(p.value))
    ensures PairsLen(ps + [p]) == PairsLen(ps) + |p.field| + |p.value|
  {
    ImageAppend(ps, [p]);
    assert [p][1..] == [];
    assert Image([p]) == Elem(p.field) + Elem(p.value);
  }

  /** Where pair `i` starts. */
  ghost function PairPos(ps: Pairs, i: nat): nat
    requires i <= |ps|
  {
    |Image(ps[..i])|
  }

  /** The packed bytes around pair `j`. */
  lemma ImageAround(ps: Pairs, j: nat)
    requires j < |ps|
    ensures Image(ps) == Image(ps[..j]) + (Elem(ps[j].field) + Elem(ps[j].value)) + Image(ps[j + 1..])
    ensures PairsLen(ps) == PairsLen(ps[..j]) + |ps[j].field| + |ps[j].value| + PairsLen(ps[j + 1..])
    ensures PairPos(ps, j + 1) == PairPos(ps, j) + 8 + |ps[j].field| + |ps[j].value| <= |Image(ps)|
  {
    assert ps == ps[..j + 1] + ps[j + 1..];
    assert ps[..j + 1] == ps[..j] + [ps[j]];
    ImageSnoc(ps[..j], ps[j]);
    ImageAppend(ps[..j + 1], ps[j + 1..]);
  }

  /** What appending a pair writes. */
  function PairBytes(f: Bytes, v: Bytes): Bytes {
    U32Le(Low32(|f|)) + f + U32Le(Low32(|v|)) + v
  }

  lemma PairBytesAre(f: Bytes, v: Bytes)
    ensures PairBytes(f, v) == Elem(f) + Elem(v)
  {
    Assoc(Elem(f), U32Le(Low32(|v|)), v);
  }

  /** Two elements in the middle of a buffer can be read back. */
  lemma ReadsTwo(a: Bytes, f: Bytes, v: Bytes, b: Bytes)
    requires |f| < TWO_32 && |v| < TWO_32
    ensures var buf, off := a + (Elem(f) + Elem(v)) + b, |a|;
      var vo := off + 4 + |f|;
      && off + 8 + |f| + |v| <= |buf|
      && ReadU32(buf, off) == |f| && buf[off + 4..off + 4 + |f|] == f
      && ReadU32(buf, vo) == |v| && buf[vo + 4..vo + 4 + |v|] == v
      && buf[off..off + 8 + |f| + |v|] == Elem(f) + Elem(v)
  {
    var e := Elem(f) + Elem(v);
    var buf, off := a + e + b, |a|;
    assert buf[off..off + |e|] == e;
    HoldsSplit(buf, off, Elem(f), Elem(v));
    ElemReadsBack(buf, off, f);
    ElemReadsBack(buf, off + 4 + |f|, v);
  }

  /** Overwriting `was` by as many bytes `v`, in the middle of a buffer. */
  lemma SpliceValue(buf: Bytes, a: Bytes, f: Bytes, e: Bytes, e': Bytes, rest: Bytes, n: Bytes, was: Bytes, v: Bytes, at: nat)
    requires |v| == |was| && buf == a + (f + e) + rest && e == n + was && e' == n + v && at == |a| + |f| + |n|
    ensures at + |v| <= |buf| && buf[..at] + v + buf[at + |v|..] == a + (f + e') + rest
  {
    assert buf == a + f + n + was + rest;
    assert buf[..at] == a + f + n;
    assert buf[at + |v|..] == rest;
  }

  /** The fields of a packed hash agree with the listing `ps`. */
  ghost predicate Packs(buf: Bytes, len: nat, bytes: nat, ps: Pairs) {
    Gathers(buf, len, bytes, ps) && Distinct(ps) && Prefixable(ps)
  }

  ghost predicate Gathers(buf: Bytes, len: nat, bytes: nat, ps: Pairs) {
    buf == Image(ps) && len == |ps| && bytes == PairsLen(ps)
  }

  lemma GatherStep(buf: Bytes, len: nat, bytes: nat, ps: Pairs, p: Pair)
    requires Gathers(buf, len, bytes, ps)
    ensures Gathers(buf + (Elem(p.field) + Elem(p.value)), len + 1, bytes + |p.field| + |p.value|, ps + [p])
  {
    ImageSnoc(ps, p);
  }

  /** Reading two length prefixes and that many bytes gives pair `i` back. */
  lemma PairReadsBack(buf: Bytes, len: nat, bytes: nat, ps: Pairs, i: nat)
    requires Packs(buf, len, bytes, ps) && i < |ps|
    ensures var off, f, v := PairPos(ps, i), ps[i].field, ps[i].value;
      var vo := off + 4 + |f|;
      && off + 8 + |f| + |v| == PairPos(ps, i + 1) <= |buf|
      && ReadU32(buf, off) == |f| && buf[off + 4..off + 4 + |f|] == f
      && ReadU32(buf, vo) == |v| && buf[vo + 4..vo + 4 + |v|] == v
      && buf[off..off + 8 + |f| + |v|] == Elem(f) + Elem(v)
  {
    assert ps[i] in ps;
    ImageAround(ps, i);
    ReadsTwo(Image(ps[..i]), ps[i].field, ps[i].value, Image(ps[i + 1..]));
  }

  lemma AppendPacks(buf: Bytes, len: nat, bytes: nat, ps: Pairs, f: Bytes, v: Bytes)
    requires Packs(buf, len, bytes, ps) && !HasField(ps, f) && |f| < TWO_32 && |v| < TWO_32
    ensures Packs(buf + PairBytes(f, v), len + 1, bytes + |f| + |v|, ps + [Pair(f, v)])
    ensures MapOf(ps + [Pair(f, v)]) == MapOf(ps)[f := v]
  {
    ImageSnoc(ps, Pair(f, v));
    MapOfSnoc(ps, Pair(f, v));
    PairBytesAre(f, v);
  }

  lemma ImageUpdated(ps: Pairs, j: nat, q: Pair)
    requires j < |ps|
    ensures Image(ps[j := q]) == Image(ps[..j]) + (Elem(q.field) + Elem(q.value)) + Image(ps[j + 1..])
    ensures PairsLen(ps[j := q]) == PairsLen(ps[..j]) + |q.field| + |q.value| + PairsLen(ps[j + 1..])
  {
    var qs := ps[j := q];
    assert qs[..j] == ps[..j] && qs[j + 1..] == ps[j + 1..] && qs[j] == q;
    ImageAround(qs, j);
  }

  lemma ElemSplit(v: Bytes, n: nat)
    requires n == |v|
    ensures Elem(v) == U32Le(Low32(n)) + v
  {
  }

  /** The bytes before and after pair `j` do not depend on the pair. */
  lemma AroundUpdated(ps: Pairs, j: nat, v: Bytes) returns (a: Bytes, b: Bytes)
    requires j < |ps| && |v| == |ps[j].value|
    ensures var f, qs := ps[j].field, ps[j := Pair(ps[j].field, v)];
      && Image(ps) == a + (Elem(f) + Elem(ps[j].value)) + b && |a| == PairPos(ps, j)
      && Image(qs) == a + (Elem(f) + Elem(v)) + b && PairsLen(qs) == PairsLen(ps)
  {
    ImageAround(ps, j);
    ImageUpdated(ps, j, Pair(ps[j].field, v));
    a, b := Image(ps[..j]), Image(ps[j + 1..]);
  }

  lemma OverwrittenBytes(buf: Bytes, a: Bytes, f: Bytes, was: Bytes, v: Bytes, b: Bytes)
    requires |v| == |was| && buf == a + (Elem(f) + Elem(was)) + b
    ensures var at := |a| + 8 + |f|;
      at + |v| <= |buf| && buf[..at] + v + buf[at + |v|..] == a + (Elem(f) + Elem(v)) + b
  {
    ElemSplit(v, |v|);
    ElemSplit(was, |v|);
    SpliceValue(buf, a, Elem(f), Elem(was), Elem(v), b, U32Le(Low32(|v|)), was, v, |a| + 8 + |f|);
  }

  lemma PrefixableUpdate(ps: Pairs, j: nat, v: Bytes)
    requires Prefixable(ps) && j < |ps| && |v| == |ps[j].value|
    ensures Prefixable(ps[j := Pair(ps[j].field, v)])
  {
    assert ps[j] in ps;
  }

  lemma OverwriteGathers(buf: Bytes, len: nat, bytes: nat, ps: Pairs, j: nat, v: Bytes, at: nat)
    requires Gathers(buf, len, bytes, ps) && j < |ps| && |v| == |ps[j].value| && at == PairPos(ps, j) + 8 + |ps[j].field|
    ensures at + |v| <= |buf|
    ensures Gathers(buf[..at] + v + buf[at + |v|..], len, bytes, ps[j := Pair(ps[j].field, v)])
  {
    var a, b := AroundUpdated(ps, j, v);
    OverwrittenBytes(buf, a, ps[j].field, ps[j].value, v, b);
  }

  /** Overwriting the value bytes of pair `j` by as many others packs the updated listing. */
  lemma OverwritePacks(buf: Bytes, len: nat, bytes: nat, ps: Pairs, j: nat, v: Bytes)
    requires Packs(buf, len, bytes, ps) && j < |ps| && |v| == |ps[j].value|
    ensures var at, qs := PairPos(ps, j) + 8 + |ps[j].field|, ps[j := Pair(ps[j].field, v)];
      && at + |v| <= |buf| && Packs(buf[..at] + v + buf[at + |v|..], len, bytes, qs)
      && MapOf(qs) == MapOf(ps)[ps[j].field := v]
  {
    PrefixableUpdate(ps, j, v);
    MapOfUpdate(ps, j, v);
    OverwriteGathers(buf, len, bytes, ps, j, v, PairPos(ps, j) + 8 + |ps[j].field|);
  }

  /** Cutting out the bytes of pair `j` packs the listing without it. */
  lemma CutBytes(ps: Pairs, j: nat)
    requires j < |ps|
    ensures var buf, off := Image(ps), PairPos(ps, j);
      var end := off + 8 + |ps[j].field| + |ps[j].value|;
      && end <= |buf| && buf[..off] + buf[end..] == Image(Cut(ps, j))
      && PairsLen(Cut(ps, j)) + |ps[j].field| + |ps[j].value| == PairsLen(ps)
  {
    var a, b := Image(ps[..j]), Image(ps[j + 1..]);
    ImageAround(ps, j);
    ImageAppend(ps[..j], ps[j + 1..]);
    var e := Elem(ps[j].field) + Elem(ps[j].value);
    assert (a + e + b)[..|a|] == a && (a + e + b)[|a| + |e|..] == b;
  }

  /** Cutting a pair out and appending its new version packs the map with the field updated. */
  lemma ReplacePacks(buf: Bytes, len: nat, bytes: nat, ps: Pairs, j: nat, v: Bytes)
    requires Packs(buf, len, bytes, ps) && j < |ps| && |v| < TWO_32
    ensures var off, f, was := PairPos(ps, j), ps[j].field, ps[j].value;
      var end, qs := off + 8 + |f| + |was|, Cut(ps, j) + [Pair(f, v)];
      && end <= |buf| && |was| <= bytes
      && Packs(buf[..off] + buf[end..] + PairBytes(f, v), len, bytes - |was| + |v|, qs)
      && MapOf(qs) == MapOf(ps)[f := v]
  {
    var f, was, rest := ps[j].field, ps[j].value, Cut(ps, j);
    assert ps[j] in ps;
    CutBytes(ps, j);
    CutDistinct(ps, j);
    MapOfCut(ps, j);
    AppendPacks(Image(rest), |rest|, PairsLen(rest), rest, f, v);
    DropPut(MapOf(ps), f, v);
  }

  lemma DropPut(m: Fields, f: Bytes, v: Bytes)
    ensures (m - {f})[f := v] == m[f := v]
  {
  }

  // ---- The packed encoding ----

  class CompactHash {
    var buf: Bytes
    var len: nat
    var bytes: nat
    ghost var pairs: Pairs

    ghost predicate Valid()
      reads this
    {
      Packs(buf, len, bytes, pairs)
    }

    constructor ()
      ensures Valid() && pairs == []
    {
      buf, len, bytes, pairs := [], 0, 0, [];
    }

    /** Decodes the pair at offset `off`, which is number `i`. */
    method At(off: nat, ghost i: nat) returns (f: Bytes, v: Bytes)
      requires Valid() && i < |pairs| && off == PairPos(pairs, i)
      ensures Pair(f, v) == pairs[i] && off + 8 + |f| + |v| == PairPos(pairs, i + 1) <= |buf|
      ensures buf[off..off + 8 + |f| + |v|] == Elem(f) + Elem(v)
    {
      PairReadsBack(buf, len, bytes, pairs, i);
      var fl := ReadU32(buf, off);
      f := buf[off + 4..off + 4 + fl];
      var vo := off + 4 + fl;
      var vl := ReadU32(buf, vo);
      v := buf[vo + 4..vo + 4 + vl];
    }

    /** Finds a field by scanning: its index and offset, or the end. */
    method Find(field: Bytes) returns (i: nat, off: nat, v: Bytes)
      requires Valid()
      ensures i <= len && off == PairPos(pairs, i)
      ensures if i < len then pairs[i] == Pair(field, v) else !HasField(pairs, field)
    {
      i, off, v := 0, 0, [];
      while i < len
        invariant i <= len && off == PairPos(pairs, i)
        invariant forall j :: 0 <= j < i ==> pairs[j].field != field
      {
        var f, w := At(off, i);
        if f == field { return i, off, w; }
        i, off := i + 1, off + 8 + |f| + |w|;
      }
    }

    method Get(field: Bytes) returns (r: Option<Bytes>)
      requires Valid()
      ensures r == if field in MapOf(pairs) then Some(MapOf(pairs)[field]) else None
    {
      var i, _, v := Find(field);
      MapOfKeys(pairs, field);
      if i < len {
        MapOfAt(pairs, i);
        assert pairs[i].field == field;
        return Some(v);
      }
      return None;
    }

    method AppendPair(f: Bytes, v: Bytes)
      requires Valid() && !HasField(pairs, f) && |f| < TWO_32 && |v| < TWO_32
      modifies this
      ensures Valid() && pairs == old(pairs) + [Pair(f, v)] && MapOf(pairs) == old(MapOf(pairs))[f := v]
    {
      AppendPacks(buf, len, bytes, pairs, f, v);
      buf := buf + PairBytes(f, v);
      len, bytes, pairs := len + 1, bytes + |f| + |v|, pairs + [Pair(f, v)];
    }

    /** Same length: the value bytes are overwritten where they are. */
    method Overwrite(ghost j: nat, off: nat, f: Bytes, ghost was: Bytes, v: Bytes)
      requires Valid() && j < |pairs| && off == PairPos(pairs, j) && pairs[j] == Pair(f, was) && |v| == |was|
      modifies this
      ensures Valid() && MapOf(pairs) == old(MapOf(pairs))[f := v]
    {
      var vo := off + 4 + |f|;
      OverwritePacks(buf, len, bytes, pairs, j, v);
      buf := buf[..vo + 4] + v + buf[vo + 4 + |v|..];
      pairs := pairs[j := Pair(f, v)];
    }

    /** Another length: the old pair is cut out and the new one goes to the end. */
    method Replace(ghost j: nat, off: nat, f: Bytes, was: Bytes, v: Bytes)
      requires Valid() && j < |pairs| && off == PairPos(pairs, j) && pairs[j] == Pair(f, was) && |v| < TWO_32
      modifies this
      ensures Valid() && MapOf(pairs) == old(MapOf(pairs))[f := v]
    {
      var end := off + 8 + |f| + |was|;
      ReplacePacks(buf, len, bytes, pairs, j, v);
      ghost var qs := Cut(pairs, j) + [Pair(f, v)];
      var newBuf, newBytes := buf[..off] + buf[end..] + PairBytes(f, v), bytes - |was| + |v|;
      assert Packs(newBuf, len, newBytes, qs);
      buf, bytes, pairs := newBuf, newBytes, qs;
    }

    method Insert(f: Bytes, v: Bytes) returns (isNew: bool, delta: int)
      requires Valid() && |f| < TWO_32 && |v| < TWO_32
      modifies this
      ensures Valid() && (isNew <==> f !in old(MapOf(pairs))) && MapOf(pairs) == old(MapOf(pairs))[f := v]
      ensures delta == FieldsLen(MapOf(pairs)) as int - FieldsLen(old(MapOf(pairs))) as int
    {
      ghost var m := MapOf(pairs);
      FieldsLenPut(m, f, v);
      MapOfKeys(pairs, f);
      var i, off, was := Find(f);
      if i == len {
        AppendPair(f, v);
        return true, |f| + |v|;
      }
      MapOfAt(pairs, i);
      assert pairs[i].field == f;
      if |was| == |v| {
        Overwrite(i, off, f, was, v);
        return false, 0;
      }
      Replace(i, off, f, was, v);
      return false, |v| as int - |was| as int;
    }

    /** Rebuilds the buffer without the first match. */
    method Rebuild(field: Bytes) returns (found: Option<Bytes>, newBuf: Bytes, newLen: nat, newBytes: nat, ghost kept: Pairs)
      requires Valid()
      ensures Sifted(pairs, |pairs|, field, kept, found)
      ensures Gathers(newBuf, newLen, newBytes, kept)
    {
      found, newBuf, newLen, newBytes, kept := None, [], 0, 0, [];
      var off := 0;
      for i := 0 to len
        invariant off == PairPos(pairs, i)
        invariant Gathers(newBuf, newLen, newBytes, kept)
        invariant Sifted(pairs, i, field, kept, found)
      {
        var f, v := At(off, i);
        SiftStep(pairs, i, field, kept, found);
        GatherStep(newBuf, newLen, newBytes, kept, Pair(f, v));
        if f == field && found.None? {
          found := Some(v);
        } else {
          newBuf := newBuf + buf[off..off + 8 + |f| + |v|];
          newLen, newBytes, kept := newLen + 1, newBytes + |f| + |v|, kept + [Pair(f, v)];
        }
        off := off + 8 + |f| + |v|;
      }
    }

    method Remove(field: Bytes) returns (r: Option<Bytes>, delta: int)
      requires Valid()
      modifies this
      ensures Valid() && r == (if field in old(MapOf(pairs)) then Some(old(MapOf(pairs))[field]) else None)
      ensures MapOf(pairs) == old(MapOf(pairs)) - {field}
      ensures delta == FieldsLen(MapOf(pairs)) as int - FieldsLen(old(MapOf(pairs))) as int
    {
      var found, newBuf, newLen, newBytes, kept := Rebuild(field);
      SiftRemoves(pairs, field, kept, found);
      if found.None? { return None, 0; }
      r, delta := found, 0 - (|field| + |found.value|) as int;
      buf, len, bytes, pairs := newBuf, newLen, newBytes, kept;
    }

    method ToPairs() returns (r: Pairs)
      requires Valid()
      ensures r == pairs
    {
      r := [];
      var off := 0;
      for i := 0 to len
        invariant off == PairPos(pairs, i) && r == pairs[..i]
      {
        var f, v := At(off, i);
        r, off := r + [Pair(f, v)], off + 8 + |f| + |v|;
      }
    }
  }

  // ---- The hash table ----

  /** Every field and value fits its 32-bit prefix. */
  ghost predicate Lengths(m: Fields) {
    forall f :: f in m ==> |f| < TWO_32 && |m[f]| < TWO_32
  }

  class HashtableHash {
    var fields: Fields
    var bytes: nat

    ghost predicate Valid()
      reads this
    {
      bytes == FieldsLen(fields) && Lengths(fields)
    }

    constructor ()
      ensures Valid() && fields == map[]
    {
      fields, bytes := map[], 0;
    }

    method Insert(f: Bytes, v: Bytes) returns (isNew: bool, delta: int)
      requires Valid() && |f| < TWO_32 && |v| < TWO_32
      modifies this
      ensures Valid() && (isNew <==> f !in old(fields)) && fields == old(fields)[f := v]
      ensures delta == FieldsLen(fields) as int - FieldsLen(old(fields)) as int
    {
      FieldsLenPut(fields, f, v);
      if f in fields {
        var ol := |fields[f]|;
        bytes := SaturatingSub(bytes, ol) + |v|;
        isNew, delta := false, |v| as int - ol as int;
      } else {
        bytes := bytes + |f| + |v|;
        isNew, delta := true, |f| + |v|;
      }
      fields := fields[f := v];
    }

    method Remove(f: Bytes) returns (r: Option<Bytes>, delta: int)
      requires Valid()
      modifies this
      ensures Valid() && fields == old(fields) - {f} && r == (if f in old(fields) then Some(old(fields)[f]) else None)
      ensures delta == FieldsLen(fields) as int - FieldsLen(old(fields)) as int
    {
      if f !in fields {
        assert fields - {f} == fields;
        return None, 0;
      }
      FieldsLenDrop(fields, f);
      var v := fields[f];
      r, delta := Some(v), 0 - (|f| + |v|) as int;
      fields, bytes := fields - {f}, SaturatingSub(SaturatingSub(bytes, |f|), |v|);
    }
  }

  // ---- The dual encoding ----

  /** A table of contents `m` that the thresholds let go back to the packed encoding. */
  ghost predicate Demotable(m: Fields, thr: HashThresholds) {
    |m| <= thr.demoteEntries && FieldsLen(m) <= thr.maxSize &&
    forall f :: f in m ==> |f| <= thr.maxValue && |m[f]| <= thr.maxValue
  }

  /** Whether the packed encoding of `m` takes the write; a field already present is never too many. */
  ghost predicate Accepts(m: Fields, f: Bytes, v: Bytes, thr: HashThresholds) {
    |f| <= thr.maxValue && |v| <= thr.maxValue &&
    (f in m || (|m| < thr.maxEntries && FieldsLen(m) + |f| + |v| <= thr.maxSize))
  }

  /** Within the limits on packed hashes, that on the total size being `size`. */
  ghost predicate Fits(m: Fields, size: nat, thr: HashThresholds) {
    |m| <= thr.maxEntries && FieldsLen(m) <= size && forall f :: f in m ==> |f| <= thr.maxValue && |m[f]| <= thr.maxValue
  }

  /**
   A new field leaves a packed hash packed exactly when the larger hash is within all limits. An
   overwritten one does so exactly when it is within the limits other than the one on the total size.
   */
  lemma AcceptsIff(m: Fields, f: Bytes, v: Bytes, thr: HashThresholds)
    requires Fits(m, FieldsLen(m), thr)
    ensures f !in m && FieldsLen(m) <= thr.maxSize ==> (Accepts(m, f, v, thr) <==> Fits(m[f := v], thr.maxSize, thr))
    ensures f in m ==> (Accepts(m, f, v, thr) <==> Fits(m[f := v], FieldsLen(m[f := v]), thr))
  {
    FieldsLenPut(m, f, v);
    assert f in m[f := v] && m[f := v][f] == v;
    assert forall g :: g in m && g != f ==> g in m[f := v] && m[f := v][g] == m[g];
  }

  /** So overwriting can take a packed hash past the limit on its size: here to one byte more. */
  lemma OverwriteExceedsSize(f: Bytes, n: nat)
    requires n > 0
    ensures var thr := HashThresholds(1, |f| + n, Max(|f|, n + 1), 1); var m := map[f := Zeros(n)];
      Fits(m, thr.maxSize, thr) && Accepts(m, f, Zeros(n + 1), thr) && FieldsLen(m[f := Zeros(n + 1)]) == thr.maxSize + 1
  {
    FieldsLenPut(map[], f, Zeros(n));
    assert map[][f := Zeros(n)] == map[f := Zeros(n)];
    FieldsLenPut(map[f := Zeros(n)], f, Zeros(n + 1));
  }

  function Zeros(n: nat): (z: Bytes)
    ensures |z| == n
  {
    seq(n, _ => 0)
  }

  /** Walks the table in any order, giving up at the first obstacle. */
  method FitsPacked(m: Fields, thr: HashThresholds) returns (fits: bool)
    ensures fits <==> Demotable(m, thr)
  {
    if |m| > thr.demoteEntries { return false; }
    var rest, total := m, 0;
    while rest != map[]
      invariant rest.Keys <= m.Keys && forall f :: f in rest ==> rest[f] == m[f]
      invariant forall f :: f in m && f !in rest ==> |f| <= thr.maxValue && |m[f]| <= thr.maxValue
      invariant total + FieldsLen(rest) == FieldsLen(m) && total <= thr.maxSize
      decreases |rest|
    {
      var f :| f in rest;
      FieldsLenDrop(rest, f);
      if |rest[f]| > thr.maxValue || |f| > thr.maxValue { return false; }
      total := total + |f| + |rest[f]|;
      if total > thr.maxSize { return false; }
      rest := rest - {f};
    }
    return true;
  }

  /** The pairs of a table, in any order. */
  method ListPairs(m: Fields) returns (ps: Pairs)
    ensures Distinct(ps) && MapOf(ps) == m
  {
    ps := [];
    var rest := m;
    while rest != map[]
      invariant rest.Keys <= m.Keys && forall f :: f in rest ==> rest[f] == m[f]
      invariant Distinct(ps) && MapOf(ps) == m - rest.Keys
      decreases |rest|
    {
      var f :| f in rest;
      FieldsLenDrop(rest, f);
      MapOfKeys(ps, f);
      MapOfSnoc(ps, Pair(f, m[f]));
      ps, rest := ps + [Pair(f, m[f])], rest - {f};
    }
  }

  method PackHash(m: Fields) returns (c: CompactHash)
    requires Lengths(m)
    ensures fresh(c) && c.Valid() && MapOf(c.pairs) == m
  {
    var ps := ListPairs(m);
    forall p | p in ps ensures |p.field| < TWO_32 && |p.value| < TWO_32 {
      var i :| 0 <= i < |ps| && ps[i] == p;
      MapOfAt(ps, i);
    }
    c := PackPairs(ps);
  }

  method PackPairs(ps: Pairs) returns (c: CompactHash)
    requires Distinct(ps) && Prefixable(ps)
    ensures fresh(c) && c.Valid() && c.pairs == ps
  {
    c := new CompactHash();
    for i := 0 to |ps|
      invariant fresh(c) && c.Valid() && c.pairs == ps[..i]
    {
      assert ps[i] in ps && ps[..i + 1] == ps[..i] + [ps[i]];
      c.AppendPair(ps[i].field, ps[i].value);
    }
    assert ps[..|ps|] == ps;
  }

  method UnpackHash(ps: Pairs, payload: nat) returns (t: HashtableHash)
    requires Distinct(ps) && Prefixable(ps) && payload == PairsLen(ps)
    ensures fresh(t) && t.Valid() && t.fields == MapOf(ps)
  {
    t := new HashtableHash();
    for i := 0 to |ps|
      invariant fresh(t) && t.Valid() && t.fields == MapOf(ps[..i])
    {
      var _, _ := t.Insert(ps[i].field, ps[i].value);
      assert ps[..i + 1][..i] == ps[..i];
    }
    assert ps[..|ps|] == ps;
    PairsMeasures(ps);
    t.bytes := payload;
  }

  /** Exactly one of `compact` and `table` is present: the source's two-variant enum, replaced in place. */
  class HashData {
    var compact: CompactHash?
    var table: HashtableHash?

    ghost predicate Valid()
      reads this, compact, table
    {
      && (compact == null) != (table == null)
      && (compact != null ==> compact.Valid())
      && (table != null ==> table.Valid())
    }

    ghost function Contents(): Fields
      reads this, compact, table
    {
      if compact != null then MapOf(compact.pairs) else if table != null then table.fields else map[]
    }

    /** The storage after a call is the storage before it or newly allocated. */
    twostate predicate SameOrFresh()
      reads this
    {
      (compact != null ==> compact == old(compact) || fresh(compact)) &&
      (table != null ==> table == old(table) || fresh(table))
    }

    constructor ()
      ensures Valid() && Contents() == map[] && fresh(compact) && table == null
    {
      compact := new CompactHash();
      table := null;
    }

    method Len() returns (n: nat)
      requires Valid()
      ensures n == |Contents()|
    {
      if compact != null {
        PairsMeasures(compact.pairs);
        n := compact.len;
      } else {
        n := |table.fields|;
      }
    }

    /** What the store's memory accounting reads: exactly the bytes of all fields and values. */
    method PayloadBytes() returns (n: nat)
      requires Valid()
      ensures n == FieldsLen(Contents())
    {
      if compact != null {
        PairsMeasures(compact.pairs);
        n := compact.bytes;
      } else {
        n := table.bytes;
      }
    }

    method Get(f: Bytes) returns (r: Option<Bytes>)
      requires Valid()
      ensures r == if f in Contents() then Some(Contents()[f]) else None
    {
      if compact != null { r := compact.Get(f); } else { r := if f in table.fields then Some(table.fields[f]) else None; }
    }

    method ToPairs() returns (ps: Pairs)
      requires Valid()
      ensures Distinct(ps) && MapOf(ps) == Contents()
    {
      if compact != null { ps := compact.ToPairs(); } else { ps := ListPairs(table.fields); }
    }

    method EnsureHashtable()
      requires Valid()
      modifies this
      ensures Valid() && table != null && Contents() == old(Contents()) && SameOrFresh()
    {
      if compact != null {
        var all := compact.ToPairs();
        var t := UnpackHash(all, compact.bytes);
        compact, table := null, t;
      }
    }

    method MaybeDemote(thr: HashThresholds)
      requires Valid()
      modifies this
      ensures Valid() && Contents() == old(Contents()) && SameOrFresh()
      ensures compact != null <==> old(compact != null) || Demotable(Contents(), thr)
    {
      if table == null { return; }
      var fits := FitsPacked(table.fields, thr);
      if !fits { return; }
      var c := PackHash(table.fields);
      compact, table := c, null;
    }

    /** Promotes for a write the packed encoding must not take. */
    method PromoteFor(f: Bytes, v: Bytes, thr: HashThresholds)
      requires Valid()
      modifies this
      ensures Valid() && Contents() == old(Contents()) && SameOrFresh()
      ensures compact != null <==> old(compact != null) && Accepts(Contents(), f, v, thr)
    {
      if compact == null { return; }
      PairsMeasures(compact.pairs);
      if |f| > thr.maxValue || |v| > thr.maxValue {
        EnsureHashtable();
      } else if compact.len >= thr.maxEntries || compact.bytes + |f| + |v| > thr.maxSize {
        var there := compact.Get(f);
        if there.None? { EnsureHashtable(); }
      }
    }

    /** The reply, the new contents and the byte delta are those of a plain map. */
    method Insert(f: Bytes, v: Bytes, thr: HashThresholds) returns (isNew: bool, delta: int)
      requires Valid() && |f| < TWO_32 && |v| < TWO_32
      modifies this, compact, table
      ensures Valid() && SameOrFresh()
      ensures (isNew <==> f !in old(Contents())) && Contents() == old(Contents())[f := v]
      ensures delta == FieldsLen(Contents()) as int - FieldsLen(old(Contents())) as int
      ensures compact != null <==> old(compact != null) && Accepts(old(Contents()), f, v, thr)
    {
      PromoteFor(f, v, thr);
      if compact != null { isNew, delta := compact.Insert(f, v); } else { isNew, delta := table.Insert(f, v); }
    }

    method Remove(f: Bytes, thr: HashThresholds) returns (r: Option<Bytes>, delta: int)
      requires Valid()
      modifies this, compact, table
      ensures Valid() && SameOrFresh() && Contents() == old(Contents()) - {f}
      ensures r == if f in old(Contents()) then Some(old(Contents())[f]) else None
      ensures delta == FieldsLen(Contents()) as int - FieldsLen(old(Contents())) as int
      ensures compact != null <==> old(compact != null) || (r.Some? && Demotable(Contents(), thr))
    {
      if compact != null { r, delta := compact.Remove(f); } else { r, delta := table.Remove(f); }
      if r.Some? { MaybeDemote(thr); }
    }
  }

  /** What a rebuild has kept after `i` pairs: all of them, or all but the one with the field. */
  ghost predicate Sifted(ps: Pairs, i: nat, f: Bytes, kept: Pairs, found: Option<Bytes>) {
    i <= |ps| &&
    match found
    case Some(v) => exists j :: 0 <= j < i && ps[j] == Pair(f, v) && kept == ps[..j] + ps[j + 1..i]
    case None => (forall j :: 0 <= j < i ==> ps[j].field != f) && kept == ps[..i]
  }

  lemma SiftStep(ps: Pairs, i: nat, f: Bytes, kept: Pairs, found: Option<Bytes>)
    requires i < |ps| && Sifted(ps, i, f, kept, found)
    ensures if found.None? && ps[i].field == f then Sifted(ps, i + 1, f, kept, Some(ps[i].value))
      else Sifted(ps, i + 1, f, kept + [ps[i]], found)
  {
    if found.Some? {
      var j :| 0 <= j < i && ps[j] == Pair(f, found.value) && kept == ps[..j] + ps[j + 1..i];
      KeepNext(ps, j, i);
    } else if ps[i].field == f {
      assert kept == ps[..i] + ps[i + 1..i + 1];
      assert ps[i] == Pair(f, ps[i].value);
    }
  }

  lemma SiftEnd(ps: Pairs, f: Bytes, kept: Pairs, found: Option<Bytes>)
    requires Distinct(ps) && Prefixable(ps) && Sifted(ps, |ps|, f, kept, found)
    ensures Distinct(kept) && Prefixable(kept) && MapOf(kept) == MapOf(ps) - {f}
    ensures found == if f in MapOf(ps) then Some(MapOf(ps)[f]) else None
  {
    MapOfKeys(ps, f);
    if found.Some? {
      var j :| 0 <= j < |ps| && ps[j] == Pair(f, found.value) && kept == ps[..j] + ps[j + 1..|ps|];
      assert kept == Cut(ps, j);
      SiftFound(ps, j);
    } else {
      assert kept == ps;
    }
  }

  /** What a finished rebuild means for the map. */
  lemma SiftRemoves(ps: Pairs, f: Bytes, kept: Pairs, found: Option<Bytes>)
    requires Distinct(ps) && Prefixable(ps) && Sifted(ps, |ps|, f, kept, found)
    ensures Distinct(kept) && Prefixable(kept)
    ensures found == if f in MapOf(ps) then Some(MapOf(ps)[f]) else None
    ensures MapOf(kept) == MapOf(ps) - {f}
    ensures found.None? ==> MapOf(ps) == MapOf(ps) - {f}
    ensures found.Some? ==> FieldsLen(MapOf(kept)) as int - FieldsLen(MapOf(ps)) as int == 0 - (|f| + |found.value|) as int
  {
    SiftEnd(ps, f, kept, found);
    if found.Some? { FieldsLenDrop(MapOf(ps), f); }
  }

  lemma SiftFound(ps: Pairs, j: nat)
    requires Distinct(ps) && Prefixable(ps) && j < |ps|
    ensures Distinct(Cut(ps, j)) && Prefixable(Cut(ps, j)) && MapOf(Cut(ps, j)) == MapOf(ps) - {ps[j].field}
    ensures ps[j].field in MapOf(ps) && MapOf(ps)[ps[j].field] == ps[j].value
  {
    CutDistinct(ps, j);
    MapOfCut(ps, j);
    MapOfAt(ps, j);
  }
}
