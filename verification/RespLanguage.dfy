/**
 The language of RESP frames, written down without reference to the parser, and the theorem that the
 parser accepts exactly its words and reads each as what it stands for.
 */
module RespLanguage {
  import opened ByteStrings
  import opened RespText
  import opened RespValue
  import opened RespInline
  import opened InlineForms
  import opened RespParse
  import opened FloatText
  import opened RespStream
  import opened RespPrint
  import opened RespRoundTrip

  /** The header line of an aggregate of `n`: a numeral, without a minus sign except after `*`. */
  ghost predicate IsHeader(tag: byte, n: nat, w: Bytes) {
    exists t: Bytes :: IsCount(tag, n, t) && w == Line(tag, t)
  }

  ghost predicate IsCount(tag: byte, n: nat, t: Bytes) {
    Spells(t, n) && n <= MAX_ARRAY_LEN && t != [] && (tag == ARRAY || t[0] != MINUS)
  }

  /** A numeral for `n` on a line of its own. */
  ghost predicate IsNumberLine(tag: byte, n: int, w: Bytes) {
    exists t: Bytes :: Spells(t, n) && w == Line(tag, t)
  }

  /** A length line, that many bytes, and a CRLF. */
  ghost predicate IsBulk(d: Bytes, w: Bytes) {
    exists h: nat :: BulkCut(d, w, h)
  }

  ghost predicate BulkCut(d: Bytes, w: Bytes, h: nat) {
    h <= |w| && IsNumberLine(BULK, |d|, w[..h]) && w[h..] == d + CRLF
  }

  /** A line of at least one argument, which does not begin like another frame. */
  ghost predicate IsInline(vs: seq<Resp>, w: Bytes) {
    exists line: Bytes, items, tail :: Typed(line, items, tail) && w == line + CRLF && vs == Bulks(Values(items))
  }

  ghost predicate Typed(line: Bytes, items: seq<Item>, tail: nat) {
    Writes(line, items, tail) && items != [] && NoCrlf(line) && line != [] && !IsTag(line[0])
  }

  /** The bytes `w` are a frame without inner frames that stands for `v`. */
  ghost predicate ScalarWire(v: Resp, w: Bytes) {
    match v
    case SimpleString(s) => NoCrlf(s) && w == Line(SIMPLE, s)
    case Error(s) => NoCrlf(s) && w == Line(ERROR, s)
    case Integer(n) => IsNumberLine(INTEGER, n, w)
    case NullBulk => IsNumberLine(BULK, -1, w)
    case BulkString(d) => |d| <= MAX_BULK_LEN && IsBulk(d, w)
    case NullArray => IsNumberLine(ARRAY, -1, w)
    case Null => w == Line(NULL, [])
    case Bool(b) => w == Line(BOOL, [if b then LETTER_T else LETTER_F])
    case Double(s) => NoCrlf(s) && IsDouble(s) && w == Line(DOUBLE, s)
    case _ => false
  }

  /** The first `h` bytes are a header. */
  ghost predicate HeadAt(tag: byte, n: nat, w: Bytes, h: nat) {
    h <= |w| && IsHeader(tag, n, w[..h])
  }

  /** The bytes `w` are a frame that stands for `v`. */
  ghost predicate Wire(v: Resp, w: Bytes)
    decreases v, 0
  {
    match v
    case Array(items) => IsInline(items, w) || exists h: nat :: HeadAt(ARRAY, |items|, w, h) && Wires(items, w[h..])
    case Set(items) => exists h: nat :: HeadAt(SET, |items|, w, h) && Wires(items, w[h..])
    case Push(items) => exists h: nat :: HeadAt(PUSH, |items|, w, h) && Wires(items, w[h..])
    case Map(pairs) => exists h: nat :: HeadAt(MAP, |pairs|, w, h) && WirePairs(pairs, w[h..])
    case _ => ScalarWire(v, w)
  }

  /** The first `k` bytes are a frame that stands for `v`. */
  ghost predicate FrameAt(v: Resp, w: Bytes, k: nat)
    decreases v, 1
  {
    k <= |w| && Wire(v, w[..k])
  }

  /** One frame after the other. */
  ghost predicate Wires(vs: seq<Resp>, w: Bytes)
    decreases vs, 2
  {
    if vs == [] then w == [] else exists k: nat :: FrameAt(vs[0], w, k) && Wires(vs[1..], w[k..])
  }

  /** The first `k` bytes are a key and its value. */
  ghost predicate PairAt(p: Pair, w: Bytes, k: nat)
    decreases p, 2
  {
    k <= |w| && exists j: nat :: FrameAt(p.key, w[..k], j) && Wire(p.val, w[..k][j..])
  }

  /** Keys and values in turn. */
  ghost predicate WirePairs(pairs: seq<Pair>, w: Bytes)
    decreases pairs, 3
  {
    if pairs == [] then w == [] else exists k: nat :: PairAt(pairs[0], w, k) && WirePairs(pairs[1..], w[k..])
  }

  // ---- What parses is in the language ----

  lemma LineBack(b: Bytes)
    requires b != [] && b[0] != CR && ParseLine(b).Ok?
    ensures var t, h := ParseLine(b).value, ParseLine(b).consumed; h <= |b| && b[..h] == Line(b[0], t) && NoCrlf(t)
  {
    var p := FindCrlf(b).value;
    var t := b[1..p];
    assert b[..p + 2] == [b[0]] + t + CRLF;
    forall i | 0 <= i < |t| ensures !CrlfAt(t, i) {
      assert !CrlfAt(b, 1 + i);
    }
  }

  lemma NumberBack(b: Bytes, n: int)
    requires b != [] && b[0] != CR && ParseLine(b).Ok? && ParseI64(ParseLine(b).value) == Some(n)
    ensures IsNumberLine(b[0], n, b[..ParseLine(b).consumed])
  {
    LineBack(b);
    ParsesNumerals(ParseLine(b).value, n);
  }

  lemma BulkBack(w: Bytes)
    requires w != [] && w[0] == BULK && ParseBulk(w).Ok? && ParseBulk(w).consumed == |w|
    ensures ScalarWire(ParseBulk(w).value, w)
  {
    var h := ParseLine(w).consumed;
    var n := ParseI64(ParseLine(w).value).value;
    NumberBack(w, n);
    if n == -1 {
      assert w[..h] == w;
    } else {
      assert w[h..] == w[h..h + n] + CRLF;
      assert BulkCut(w[h..h + n], w, h);
    }
  }

  /** Which reader a scalar's type byte selects. */
  lemma Dispatch(b: Bytes)
    requires b != []
    ensures b[0] == INTEGER ==> ParseResp(b) == ParseInteger(b)
    ensures b[0] == BULK ==> ParseResp(b) == ParseBulk(b)
    ensures b[0] == NULL ==> ParseResp(b) == ParseNull(b)
    ensures b[0] == BOOL ==> ParseResp(b) == ParseBool(b)
  {
  }

  lemma NullBack(w: Bytes)
    requires w != [] && w[0] == NULL && ParseNull(w).Ok? && |w| == 3
    ensures ScalarWire(ParseNull(w).value, w)
  {
    assert w == Line(NULL, []);
  }

  lemma BoolBack(w: Bytes)
    requires w != [] && w[0] == BOOL && ParseBool(w).Ok? && |w| == 4
    ensures ScalarWire(ParseBool(w).value, w)
  {
    assert w == Line(BOOL, [w[1]]);
  }

  lemma IntegerBack(w: Bytes)
    requires w != [] && w[0] == INTEGER && ParseInteger(w).Ok? && ParseInteger(w).consumed == |w|
    ensures ScalarWire(ParseInteger(w).value, w)
  {
    NumberBack(w, ParseInteger(w).value.n);
    assert w[..|w|] == w;
  }

  lemma ScalarBack(w: Bytes)
    requires w != [] && IsScalar(w[0]) && ParseResp(w).Ok? && ParseResp(w).consumed == |w|
    ensures ScalarWire(ParseResp(w).value, w)
  {
    Dispatch(w);
    if w[0] == BULK {
      BulkBack(w);
    } else if w[0] == INTEGER {
      IntegerBack(w);
    } else if w[0] == NULL {
      NullBack(w);
    } else if w[0] == BOOL {
      BoolBack(w);
    } else {
      TextBack(w);
    }
  }

  lemma TextBack(w: Bytes)
    requires w != [] && (w[0] == SIMPLE || w[0] == ERROR || w[0] == DOUBLE) && ParseResp(w).Ok? && ParseResp(w).consumed == |w|
    ensures ScalarWire(ParseResp(w).value, w)
  {
    LineBack(w);
    assert w[..|w|] == w;
    FloatIs(ParseLine(w).value);
  }

  lemma CountBack(b: Bytes)
    requires b != [] && IsAggregate(b[0]) && ParseCount(b).Ok?
    ensures match ParseCount(b).value
      case Some(n) => IsHeader(b[0], n, b[..ParseCount(b).consumed])
      case None => b[0] == ARRAY && IsNumberLine(ARRAY, -1, b[..ParseCount(b).consumed])
  {
    var t := ParseLine(b).value;
    LineBack(b);
    ParsesNumerals(t, if ParseCount(b).value.Some? then ParseCount(b).value.value else -1);
    if ParseCount(b).value.Some? { assert IsCount(b[0], ParseCount(b).value.value, t); }
  }

  lemma InlineBack(w: Bytes)
    requires w != [] && !IsTag(w[0]) && ParseInline(w).Ok? && ParseInline(w).consumed == |w|
    ensures ParseInline(w).value.Array? && IsInline(ParseInline(w).value.items, w)
  {
    var line := w[..|w| - 2];
    LineOf(w, line);
    var items, tail := TypedBack(line, Tokens(line, 0).value);
  }

  lemma LineOf(w: Bytes, line: Bytes)
    requires w != [] && !IsTag(w[0]) && FindCrlf(w) == Some(|w| - 2) && line == w[..|w| - 2]
    ensures w == line + CRLF && NoCrlf(line) && (line != [] ==> !IsTag(line[0]))
  {
    forall i | 0 <= i < |line| ensures !CrlfAt(line, i) {
      assert !CrlfAt(w, i);
    }
  }

  lemma TypedBack(line: Bytes, parts: seq<Bytes>) returns (items: seq<Item>, tail: nat)
    requires Tokens(line, 0) == Some(parts) && parts != [] && NoCrlf(line) && (line != [] ==> !IsTag(line[0]))
    ensures Typed(line, items, tail) && Values(items) == parts
  {
    InlineLanguage(line);
    items, tail :| Writes(line, items, tail);
  }

  lemma WiresMore(v: Resp, vs: seq<Resp>, w: Bytes, k: nat)
    requires FrameAt(v, w, k) && Wires(vs, w[k..])
    ensures Wires([v] + vs, w)
  {
    assert ([v] + vs)[0] == v && ([v] + vs)[1..] == vs;
  }

  /** What a header and the items after it make. */
  lemma BuildWire(tag: byte, n: nat, items: seq<Resp>, w: Bytes, h: nat)
    requires IsAggregate(tag) && HeadAt(tag, n, w, h) && |items| == Arity(tag, n) && Wires(items, w[h..])
    ensures Wire(Build(tag, items), w)
  {
    if tag == MAP { PairUp(items, w[h..]); }
  }

  lemma {:induction false} ParsedIsWire(w: Bytes)
    requires ParseResp(w).Ok? && ParseResp(w).consumed == |w|
    ensures Wire(ParseResp(w).value, w)
    decreases |w|, 0
  {
    if IsScalar(w[0]) {
      ScalarBack(w);
      ScalarIsWire(ParseResp(w).value, w);
    } else if IsAggregate(w[0]) {
      var h := ParseCount(w).consumed;
      CountBack(w);
      if ParseCount(w).value.Some? {
        var n := ParseCount(w).value.value;
        AggregateIs(w, n, h);
        ItemsBack(w[h..], Arity(w[0], n));
        BuildWire(w[0], n, ParseItems(w[h..], Arity(w[0], n)).value, w, h);
      } else {
        assert w[..h] == w;
      }
    } else {
      InlineBack(w);
    }
  }

  lemma ScalarIsWire(v: Resp, w: Bytes)
    requires ScalarWire(v, w)
    ensures Wire(v, w) && IsLeaf(v)
  {
  }

  lemma {:induction false} ItemsBack(b: Bytes, n: nat)
    requires ParseItems(b, n).Ok? && ParseItems(b, n).consumed == |b|
    ensures Wires(ParseItems(b, n).value, b)
    decreases |b|, 1
  {
    if n > 0 {
      var v, c := ParseResp(b).value, ParseResp(b).consumed;
      ItemsSplit(b, n);
      FrameLocal(b);
      ParsedIsWire(b[..c]);
      ItemsBack(b[c..], n - 1);
      WiresMore(v, ParseItems(b[c..], n - 1).value, b, c);
    }
  }

  lemma ItemsSplit(b: Bytes, n: nat)
    requires n > 0 && ParseItems(b, n).Ok?
    ensures ParseResp(b).Ok?
    ensures var c := ParseResp(b).consumed; var rest := ParseItems(b[c..], n - 1);
      rest.Ok? && ParseItems(b, n) == Ok([ParseResp(b).value] + rest.value, c + rest.consumed)
  {
  }

  /** The first two frames of a run are a pair. */
  lemma FirstTwo(vs: seq<Resp>, w: Bytes) returns (k: nat)
    requires |vs| >= 2 && Wires(vs, w)
    ensures PairAt(Pair(vs[0], vs[1]), w, k) && Wires(vs[2..], w[k..])
  {
    var j: nat :| FrameAt(vs[0], w, j) && Wires(vs[1..], w[j..]);
    var b, rest := w[j..], vs[1..];
    var m: nat :| FrameAt(rest[0], b, m) && Wires(rest[1..], b[m..]);
    k := j + m;
    assert w[..k][..j] == w[..j] && w[..k][j..] == b[..m] && w[k..] == b[m..] && rest[1..] == vs[2..];
    assert FrameAt(vs[0], w[..k], j);
  }

  lemma PairsMore(p: Pair, ps: seq<Pair>, w: Bytes, k: nat)
    requires PairAt(p, w, k) && WirePairs(ps, w[k..])
    ensures WirePairs([p] + ps, w)
  {
    assert ([p] + ps)[0] == p && ([p] + ps)[1..] == ps;
  }

  lemma {:induction false} PairUp(vs: seq<Resp>, w: Bytes)
    requires |vs| % 2 == 0 && Wires(vs, w)
    ensures WirePairs(Pairs(vs), w)
    decreases |vs|
  {
    if vs != [] {
      var k := FirstTwo(vs, w);
      PairUp(vs[2..], w[k..]);
      PairsMore(Pair(vs[0], vs[1]), Pairs(vs[2..]), w, k);
    }
  }

  // ---- What is in the language parses ----

  lemma {:induction false} DigitsHaveNoCr(s: Bytes, n: int)
    requires Spells(s, n)
    ensures NoCrlf(s) && s != []
  {
    var sign: Bytes, digits: Bytes :| Numeral(s, sign, digits, n);
    forall i | 0 <= i < |s| ensures s[i] != CR {
      assert s[i] == if i < |sign| then sign[i] else digits[i - |sign|];
    }
  }

  lemma NumberForth(tag: byte, n: int, w: Bytes, x: Bytes)
    requires tag != CR && IsNumberLine(tag, n, w) && -TWO_63 <= n < TWO_63
    ensures w != [] && w[0] == tag && ParseLine(w + x).Ok? && ParseLine(w + x).consumed == |w|
    ensures ParseI64(ParseLine(w + x).value) == Some(n)
  {
    var t: Bytes :| Spells(t, n) && w == Line(tag, t);
    DigitsHaveNoCr(t, n);
    LineEnds(tag, t, x);
    ParsesNumerals(t, n);
  }

  lemma BulkEnds(d: Bytes, w: Bytes, h: nat)
    requires h <= |w| && w[h..] == d + CRLF
    ensures h + |d| + 2 == |w| && w[h..h + |d|] == d && CrlfAt(w, h + |d|)
  {
    assert w[h + |d|] == w[h..][|d|] && w[h + |d| + 1] == w[h..][|d| + 1];
    assert w[h..h + |d|] == w[h..][..|d|];
  }

  lemma BulkForth(d: Bytes, w: Bytes)
    requires |d| <= MAX_BULK_LEN && IsBulk(d, w)
    ensures ParseResp(w) == Ok(BulkString(d), |w|)
  {
    var h := BulkHead(d, w);
    BulkEnds(d, w, h);
    BulkAt(w, h, ParseLine(w).value, d);
    RespIsBulk(w);
  }

  lemma BulkHead(d: Bytes, w: Bytes) returns (h: nat)
    requires |d| <= MAX_BULK_LEN && IsBulk(d, w)
    ensures h <= |w| && w[h..] == d + CRLF && w != [] && w[0] == BULK
    ensures ParseLine(w).Ok? && ParseLine(w).consumed == h && ParseI64(ParseLine(w).value) == Some(|d|)
  {
    h :| BulkCut(d, w, h);
    var head, rest := w[..h], w[h..];
    assert w == head + rest;
    NumberForth(BULK, |d|, head, rest);
  }

  lemma NumbersForth(v: Resp, w: Bytes)
    requires ScalarWire(v, w) && (v.Integer? || v.NullBulk?)
    ensures ParseResp(w) == Ok(v, |w|)
  {
    assert w + [] == w;
    NumberForth(if v.Integer? then INTEGER else BULK, if v.Integer? then v.n else -1, w, []);
    Dispatch(w);
  }

  lemma NullArrayForth(w: Bytes)
    requires IsNumberLine(ARRAY, -1, w)
    ensures ParseResp(w) == Ok(NullArray, |w|)
  {
    assert w + [] == w;
    NumberForth(ARRAY, -1, w, []);
    assert ParseCount(w) == Ok(None, |w|);
  }

  lemma ScalarForth(v: Resp, w: Bytes)
    requires ScalarWire(v, w)
    ensures ParseResp(w) == Ok(v, |w|)
  {
    if v.Integer? || v.NullBulk? {
      NumbersForth(v, w);
    } else if v.NullArray? {
      NullArrayForth(w);
    } else if v.BulkString? {
      BulkForth(v.data, w);
    } else {
      FixedForth(v, w);
    }
  }

  lemma FixedForth(v: Resp, w: Bytes)
    requires ScalarWire(v, w) && (v.SimpleString? || v.Error? || v.Null? || v.Bool? || v.Double?)
    ensures ParseResp(w) == Ok(v, |w|)
  {
    assert w + [] == w;
    match v {
      case SimpleString(s) => LineEnds(SIMPLE, s, []);
      case Error(s) => LineEnds(ERROR, s, []);
      case Null => NullReadsBack([]);
      case Bool(b) => BoolReadsBack(b, []);
      case Double(s) =>
        FloatIs(s);
        DoubleReadsBack(s, []);
    }
  }

  lemma HeaderForth(tag: byte, n: nat, w: Bytes, x: Bytes)
    requires IsAggregate(tag) && IsHeader(tag, n, w)
    ensures w != [] && w[0] == tag && ParseCount(w + x) == Ok(Some(n), |w|)
  {
    var t: Bytes :| IsCount(tag, n, t) && w == Line(tag, t);
    DigitsHaveNoCr(t, n);
    LineEnds(tag, t, x);
    ParsesNumerals(t, n);
  }

  lemma AggregateForth(tag: byte, n: nat, w: Bytes, h: nat, items: seq<Resp>)
    requires IsAggregate(tag) && HeadAt(tag, n, w, h) && |items| == Arity(tag, n)
    requires ParseItems(w[h..], Arity(tag, n)) == Ok(items, |w| - h)
    ensures ParseResp(w) == Ok(Build(tag, items), |w|)
  {
    HeaderForth(tag, n, w[..h], w[h..]);
    assert w == w[..h] + w[h..];
    AggregateIs(w, n, h);
  }

  lemma InlineForth(vs: seq<Resp>, w: Bytes)
    requires IsInline(vs, w)
    ensures ParseResp(w) == Ok(Array(vs), |w|)
  {
    var line: Bytes, items, tail: nat :| Typed(line, items, tail) && w == line + CRLF && vs == Bulks(Values(items));
    InlineLineReads(line, []);
    assert line + CRLF + [] == w;
  }

  lemma {:induction false} WireParses(v: Resp, w: Bytes)
    requires Wire(v, w)
    ensures ParseResp(w) == Ok(v, |w|)
    decreases v, 0
  {
    match v {
      case Array(items) =>
        if IsInline(items, w) {
          InlineForth(items, w);
        } else {
          var h: nat :| HeadAt(ARRAY, |items|, w, h) && Wires(items, w[h..]);
          WiresParse(items, w[h..]);
          AggregateForth(ARRAY, |items|, w, h, items);
        }
      case Set(items) =>
        var h: nat :| HeadAt(SET, |items|, w, h) && Wires(items, w[h..]);
        WiresParse(items, w[h..]);
        AggregateForth(SET, |items|, w, h, items);
      case Push(items) =>
        var h: nat :| HeadAt(PUSH, |items|, w, h) && Wires(items, w[h..]);
        WiresParse(items, w[h..]);
        AggregateForth(PUSH, |items|, w, h, items);
      case Map(pairs) =>
        var h: nat :| HeadAt(MAP, |pairs|, w, h) && WirePairs(pairs, w[h..]);
        PairsParse(pairs, w[h..]);
        FlatPairs(pairs);
        AggregateForth(MAP, |pairs|, w, h, Flat(pairs));
      case _ => ScalarForth(v, w);
    }
  }

  lemma {:induction false} WiresParse(vs: seq<Resp>, w: Bytes)
    requires Wires(vs, w)
    ensures ParseItems(w, |vs|) == Ok(vs, |w|)
    decreases vs, 1
  {
    if vs != [] {
      var k: nat :| FrameAt(vs[0], w, k) && Wires(vs[1..], w[k..]);
      WireParses(vs[0], w[..k]);
      WiresParse(vs[1..], w[k..]);
      FrameThenItems(vs[0], vs[1..], w, k);
      assert [vs[0]] + vs[1..] == vs;
    }
  }

  lemma FrontParses(b: Bytes, v: Resp, c: nat)
    requires c <= |b| && ParseResp(b[..c]) == Ok(v, c)
    ensures ParseResp(b) == Ok(v, c)
  {
    ParseStable(b[..c], b[c..]);
    assert b == b[..c] + b[c..];
  }

  lemma FrameThenItems(v: Resp, vs: seq<Resp>, w: Bytes, k: nat)
    requires k <= |w| && ParseResp(w[..k]) == Ok(v, k) && ParseItems(w[k..], |vs|) == Ok(vs, |w| - k)
    ensures ParseItems(w, |vs| + 1) == Ok([v] + vs, |w|)
  {
    FrontParses(w, v, k);
    ItemsFrom(w, |vs| + 1, v, k, Ok(vs, |w| - k));
  }

  function Flat(pairs: seq<Pair>): (r: seq<Resp>)
    ensures |r| == 2 * |pairs|
  {
    if pairs == [] then [] else [pairs[0].key] + ([pairs[0].val] + Flat(pairs[1..]))
  }

  lemma {:induction false} FlatPairs(pairs: seq<Pair>)
    ensures Pairs(Flat(pairs)) == pairs
  {
    if pairs != [] {
      FlatPairs(pairs[1..]);
      assert Flat(pairs)[2..] == Flat(pairs[1..]);
    }
  }

  lemma {:induction false} PairParses(p: Pair, w: Bytes, k: nat) returns (j: nat)
    requires PairAt(p, w, k)
    ensures j <= k && ParseResp(w[..k][..j]) == Ok(p.key, j) && ParseResp(w[..k][j..]) == Ok(p.val, k - j)
    decreases p, 1
  {
    j :| FrameAt(p.key, w[..k], j) && Wire(p.val, w[..k][j..]);
    WireParses(p.key, w[..k][..j]);
    WireParses(p.val, w[..k][j..]);
  }

  lemma PairThenItems(p: Pair, vs: seq<Resp>, w: Bytes, j: nat, k: nat)
    requires j <= k <= |w| && ParseResp(w[..k][..j]) == Ok(p.key, j) && ParseResp(w[..k][j..]) == Ok(p.val, k - j)
    requires ParseItems(w[k..], |vs|) == Ok(vs, |w| - k)
    ensures ParseItems(w, |vs| + 2) == Ok([p.key] + ([p.val] + vs), |w|)
  {
    CutTwice(w, j, k);
    ValThenItems(p.val, vs, w, j, k);
    FrameThenItems(p.key, [p.val] + vs, w, j);
  }

  lemma ValThenItems(v: Resp, vs: seq<Resp>, w: Bytes, j: nat, k: nat)
    requires j <= k <= |w| && ParseResp(w[j..][..k - j]) == Ok(v, k - j) && ParseItems(w[j..][k - j..], |vs|) == Ok(vs, |w| - k)
    ensures ParseItems(w[j..], |vs| + 1) == Ok([v] + vs, |w| - j)
  {
    FrameThenItems(v, vs, w[j..], k - j);
  }

  lemma CutTwice(w: Bytes, j: nat, k: nat)
    requires j <= k <= |w|
    ensures w[..k][..j] == w[..j] && w[..k][j..] == w[j..][..k - j] && w[j..][k - j..] == w[k..]
  {
  }

  lemma {:induction false} PairsParse(pairs: seq<Pair>, w: Bytes)
    requires WirePairs(pairs, w)
    ensures ParseItems(w, |Flat(pairs)|) == Ok(Flat(pairs), |w|)
    decreases pairs, 1
  {
    if pairs != [] {
      var k: nat :| PairAt(pairs[0], w, k) && WirePairs(pairs[1..], w[k..]);
      var j := PairParses(pairs[0], w, k);
      PairsParse(pairs[1..], w[k..]);
      PairThenItems(pairs[0], Flat(pairs[1..]), w, j, k);
    }
  }

  /**
   The parser accepts exactly the frames of the language and reads each as the one value it stands
   for: `c` bytes come off the front of `b` as `v` if and only if they are a frame that stands for `v`.
   */
  lemma ParsesLanguage(b: Bytes, v: Resp, c: nat)
    ensures ParseResp(b) == Ok(v, c) <==> FrameAt(v, b, c)
  {
    if ParseResp(b) == Ok(v, c) { FrontIsFrame(b); }
    if FrameAt(v, b, c) { FrameParses(b, v, c); }
  }

  lemma FrontIsFrame(b: Bytes)
    requires ParseResp(b).Ok?
    ensures FrameAt(ParseResp(b).value, b, ParseResp(b).consumed)
  {
    FrameLocal(b);
    ParsedIsWire(b[..ParseResp(b).consumed]);
  }

  lemma FrameParses(b: Bytes, v: Resp, c: nat)
    requires FrameAt(v, b, c)
    ensures ParseResp(b) == Ok(v, c)
  {
    WireParses(v, b[..c]);
    FrontParses(b, v, c);
  }

  // ---- Whole streams ----

  /** The stream `b` is frames for the values of `o`, and then what the ending says. */
  ghost predicate Streams(b: Bytes, o: Outcome, k: nat) {
    && k <= |b| && Wires(o.values, b[..k])
    && match o.ending
       case Pending(rest) => rest == b[k..] && ParseResp(rest).Incomplete?
       case Malformed(f) => ParseResp(b[k..]) == Invalid(f)
  }

  lemma StreamsMore(b: Bytes, v: Resp, c: nat, o: Outcome, k: nat)
    requires FrameAt(v, b, c) && Streams(b[c..], o, k)
    ensures Streams(b, Outcome([v] + o.values, o.ending), c + k)
  {
    var w := b[..c + k];
    assert w[..c] == b[..c] && w[c..] == b[c..][..k] && b[c + k..] == b[c..][k..];
    assert FrameAt(v, w, c);
    WiresMore(v, o.values, w, c);
  }

  lemma StreamStops(b: Bytes)
    requires !ParseResp(b).Ok?
    ensures Streams(b, ParseAll(b), 0)
  {
    assert b[0..] == b && b[..0] == [];
  }

  ghost predicate IsStream(b: Bytes, o: Outcome) {
    exists k: nat :: Streams(b, o, k)
  }

  lemma StreamGoesOn(b: Bytes, c: nat)
    requires ParseResp(b).Ok? && ParseResp(b).consumed == c && IsStream(b[c..], ParseAll(b[c..]))
    ensures IsStream(b, ParseAll(b))
  {
    var k: nat :| Streams(b[c..], ParseAll(b[c..]), k);
    FrontIsFrame(b);
    StreamsMore(b, ParseResp(b).value, c, ParseAll(b[c..]), k);
  }

  /** A stream is cut into exactly the frames it consists of, up to an unfinished or a malformed one. */
  lemma {:induction false} StreamIs(b: Bytes)
    ensures IsStream(b, ParseAll(b))
    decreases |b|
  {
    if ParseResp(b).Ok? {
      var c := ParseResp(b).consumed;
      StreamIs(b[c..]);
      StreamGoesOn(b, c);
    } else {
      StreamStops(b);
    }
  }

  // ---- The parser never waits in vain ----

  /** With a CRLF behind it, a line that has none yet ends there. */
  lemma LineCloses(b: Bytes, x: Bytes)
    requires FindCrlf(b).None?
    ensures FindCrlf(b + CRLF + x) == Some(|b|) && (b + CRLF + x)[..|b|] == b
  {
    var w := b + CRLF + x;
    assert CrlfAt(w, |b|);
    forall j | 0 <= j < |b| ensures !CrlfAt(w, j) {
      assert !CrlfAt(b, j);
    }
  }

  /** More bytes decide the frame, and if they make it a value they are all part of it. */
  ghost predicate Decides(b: Bytes, x: Bytes) {
    var r := ParseResp(b + x);
    !r.Incomplete? && (r.Ok? ==> r.consumed == |b| + |x|)
  }

  lemma LineDone(b: Bytes)
    requires b != [] && b[0] != CR && ParseLine(b).Incomplete?
    ensures (b + CRLF)[0] == b[0] && ParseLine(b + CRLF).Ok? && ParseLine(b + CRLF).consumed == |b| + 2
  {
    LineCloses(b, []);
    assert b + CRLF + [] == b + CRLF;
  }

  lemma DecidesLater(b: Bytes, y: Bytes)
    requires Decides(b + CRLF, y)
    ensures Decides(b, CRLF + y)
  {
    assert b + (CRLF + y) == b + CRLF + y;
  }

  /** Bytes that make a run of frames decided. */
  ghost predicate DecidesItems(b: Bytes, n: nat, x: Bytes) {
    var r := ParseItems(b + x, n);
    !r.Incomplete? && (r.Ok? ==> r.consumed == |b| + |x|)
  }

  /** `n` zero bytes. */
  function Zeros(n: nat): (z: Bytes)
    ensures |z| == n
  {
    seq(n, _ => 0)
  }

  /** A bulk string whose length is known lacks a known number of bytes. */
  lemma BulkWaits(b: Bytes) returns (x: Bytes)
    requires b != [] && b[0] == BULK && ParseLine(b).Ok? && ParseBulk(b).Incomplete?
    ensures Decides(b, x)
  {
    var n := ParseI64(ParseLine(b).value).value;
    x := Zeros(ParseLine(b).consumed + n + 2 - |b|);
    LineStable(b, x);
    Dispatch(b + x);
  }

  /** A bulk string whose length is not yet known: after the CRLF it is as above, or decided. */
  lemma BulkOpens(b: Bytes) returns (x: Bytes)
    requires b != [] && b[0] == BULK && ParseLine(b).Incomplete?
    ensures Decides(b, x)
  {
    LineDone(b);
    var w := b + CRLF;
    Dispatch(w);
    x := CRLF;
    if ParseBulk(w).Incomplete? {
      var y := BulkWaits(w);
      x := CRLF + y;
      DecidesLater(b, y);
    }
  }

  function Nulls(n: nat): Bytes {
    if n == 0 then [] else Line(NULL, []) + Nulls(n - 1)
  }

  /** All of `b` is `n` frames. */
  ghost predicate Fills(b: Bytes, n: nat) {
    ParseItems(b, n).Ok? && ParseItems(b, n).consumed == |b|
  }

  lemma FillsMore(w: Bytes, v: Resp, rest: Bytes, n: nat)
    requires ParseResp(w) == Ok(v, |w|) && Fills(rest, n)
    ensures Fills(w + rest, n + 1)
  {
    ParseStable(w, rest);
    ItemsUnfold(w, rest, n + 1, v);
  }

  lemma {:induction false} NullsFill(n: nat)
    ensures Fills(Nulls(n), n)
  {
    if n > 0 {
      NullsFill(n - 1);
      NullReadsBack([]);
      assert Line(NULL, []) + [] == Line(NULL, []);
      FillsMore(Line(NULL, []), Null, Nulls(n - 1), n - 1);
    }
  }

  /** A header with nothing behind it can be given its items. */
  lemma HeadWaits(w: Bytes, n: nat)
    requires w != [] && IsAggregate(w[0]) && ParseCount(w) == Ok(Some(n), |w|)
    ensures Decides(w, Nulls(Arity(w[0], n)))
  {
    var y := Nulls(Arity(w[0], n));
    NullsFill(Arity(w[0], n));
    CountStable(w, y);
    assert (w + y)[|w|..] == y;
    AggregateIs(w + y, n, |w|);
  }

  lemma CountOpens(b: Bytes) returns (x: Bytes)
    requires b != [] && IsAggregate(b[0]) && ParseLine(b).Incomplete?
    ensures Decides(b, x)
  {
    LineDone(b);
    var w := b + CRLF;
    x := CRLF;
    if ParseCount(w).Ok? && ParseCount(w).value.Some? {
      var n := ParseCount(w).value.value;
      HeadWaits(w, n);
      DecidesLater(b, Nulls(Arity(w[0], n)));
      x := CRLF + Nulls(Arity(w[0], n));
    }
  }

  lemma FixedWaits(b: Bytes) returns (x: Bytes)
    requires b != [] && (b[0] == NULL || b[0] == BOOL) && ParseResp(b).Incomplete?
    ensures Decides(b, x)
  {
    Dispatch(b);
    x := Zeros((if b[0] == NULL then 3 else 4) - |b|);
    Dispatch(b + x);
  }

  lemma InlineWaits(b: Bytes)
    requires b != [] && !IsTag(b[0]) && ParseInline(b).Incomplete?
    ensures Decides(b, CRLF)
  {
    LineCloses(b, []);
    assert b + CRLF + [] == b + CRLF;
  }

  /** Whatever is incomplete can be decided: no input makes the parser wait for ever. */
  lemma {:induction false} NeverStuck(b: Bytes) returns (x: Bytes)
    requires ParseResp(b).Incomplete?
    ensures Decides(b, x)
    decreases |b|, 0
  {
    if b == [] {
      x := Line(NULL, []);
      NullReadsBack([]);
      assert [] + x == x + [];
    } else if b[0] == NULL || b[0] == BOOL {
      x := FixedWaits(b);
    } else if b[0] == BULK {
      Dispatch(b);
      if ParseLine(b).Ok? { x := BulkWaits(b); } else { x := BulkOpens(b); }
    } else if IsAggregate(b[0]) {
      if ParseLine(b).Ok? {
        var n, h := ParseCount(b).value.value, ParseCount(b).consumed;
        AggregateIs(b, n, h);
        x := ItemsNeverStuck(b[h..], Arity(b[0], n));
        CountStable(b, x);
        assert (b + x)[h..] == b[h..] + x;
        AggregateIs(b + x, n, h);
      } else {
        x := CountOpens(b);
      }
    } else {
      x := CRLF;
      if IsScalar(b[0]) { LineDone(b); } else { InlineWaits(b); }
    }
  }

  lemma {:induction false} ItemsNeverStuck(b: Bytes, n: nat) returns (x: Bytes)
    requires ParseItems(b, n).Incomplete?
    ensures DecidesItems(b, n, x)
    decreases |b|, 1, n
  {
    if ParseResp(b).Incomplete? {
      var y := NeverStuck(b);
      x := y;
      if ParseResp(b + y).Ok? {
        x := y + Nulls(n - 1);
        NullsFill(n - 1);
        FillsMore(b + y, ParseResp(b + y).value, Nulls(n - 1), n - 1);
        assert b + x == b + y + Nulls(n - 1);
      }
    } else {
      var c := ParseResp(b).consumed;
      x := ItemsNeverStuck(b[c..], n - 1);
      ParseStable(b, x);
      assert (b + x)[c..] == b[c..] + x;
    }
  }
}
