/**
 Print then parse. For values built without Raw, reading the printed bytes back gives the value as
 the peer's protocol version can carry it, exactly when its line strings hold no CRLF, its doubles
 are numerals and its lengths are within the parser's limits.
 */
module RespRoundTrip {
  import opened ByteStrings
  import opened RespText
  import opened RespInline
  import opened InlineForms
  import opened RespValue
  import opened RespParse
  import opened RespPrint

  /** No pre-serialized bytes anywhere inside. */
  predicate Plain(v: Resp)
    decreases v, 0
  {
    match v
    case Array(items) => AllPlain(items)
    case Set(items) => AllPlain(items)
    case Push(items) => AllPlain(items)
    case Map(pairs) => PairsPlain(pairs)
    case Raw(_) => false
    case _ => true
  }

  predicate AllPlain(items: seq<Resp>)
    decreases items, 1
  {
    items == [] || (Plain(items[0]) && AllPlain(items[1..]))
  }

  predicate PairsPlain(pairs: seq<Pair>)
    decreases pairs, 1
  {
    pairs == [] ||
    (assert pairs[0].key < pairs[0] && pairs[0].val < pairs[0];
     Plain(pairs[0].key) && Plain(pairs[0].val) && PairsPlain(pairs[1..]))
  }

  predicate NoCrlf(s: Bytes) {
    forall i :: 0 <= i < |s| ==> !CrlfAt(s, i)
  }

  /** The checkable condition under which `v` survives the wire. */
  predicate Printable(v: Resp, version: nat)
    decreases v, 0
  {
    match v
    case SimpleString(s) => NoCrlf(s)
    case Error(s) => NoCrlf(s)
    case BulkString(d) => |d| <= MAX_BULK_LEN
    case Double(s) => if version >= 3 then IsFloat(s) && NoCrlf(s) else |s| <= MAX_BULK_LEN
    case Array(items) => |items| <= MAX_ARRAY_LEN && AllPrintable(items, version)
    case Set(items) => |items| <= MAX_ARRAY_LEN && AllPrintable(items, version)
    case Push(items) => |items| <= MAX_ARRAY_LEN && AllPrintable(items, version)
    case Map(pairs) =>
      (if version >= 3 then |pairs| else 2 * |pairs|) <= MAX_ARRAY_LEN && PairsPrintable(pairs, version)
    case _ => true
  }

  predicate AllPrintable(items: seq<Resp>, version: nat)
    decreases items, 1
  {
    items == [] || (Printable(items[0], version) && AllPrintable(items[1..], version))
  }

  predicate PairsPrintable(pairs: seq<Pair>, version: nat)
    decreases pairs, 1
  {
    pairs == [] ||
    (assert pairs[0].key < pairs[0] && pairs[0].val < pairs[0];
     Printable(pairs[0].key, version) && Printable(pairs[0].val, version) && PairsPrintable(pairs[1..], version))
  }

  /** What the peer sees: RESP3 has one null; RESP2 has integers for booleans, bulk strings for doubles and arrays for every aggregate. */
  function Degrade(v: Resp, version: nat): Resp
    decreases v, 0
  {
    match v
    case NullBulk => if version >= 3 then Null else v
    case NullArray => if version >= 3 then Null else v
    case Bool(b) => if version >= 3 then v else Integer(if b then 1 else 0)
    case Double(s) => if version >= 3 then v else BulkString(s)
    case Array(items) => Array(DegradeAll(items, version))
    case Set(items) => if version >= 3 then Set(DegradeAll(items, version)) else Array(DegradeAll(items, version))
    case Push(items) => if version >= 3 then Push(DegradeAll(items, version)) else Array(DegradeAll(items, version))
    case Map(pairs) =>
      if version >= 3 then Map(Pairs(DegradePairs(pairs, version))) else Array(DegradePairs(pairs, version))
    case _ => v
  }

  function DegradeAll(items: seq<Resp>, version: nat): (r: seq<Resp>)
    ensures |r| == |items|
    decreases items, 1
  {
    if items == [] then [] else [Degrade(items[0], version)] + DegradeAll(items[1..], version)
  }

  /** The entries of a map as one flat k, v, k, v run. */
  function DegradePairs(pairs: seq<Pair>, version: nat): (r: seq<Resp>)
    ensures |r| == 2 * |pairs|
    decreases pairs, 1
  {
    if pairs == [] then []
    else
      assert pairs[0].key < pairs[0] && pairs[0].val < pairs[0];
      [Degrade(pairs[0].key, version)] + ([Degrade(pairs[0].val, version)] + DegradePairs(pairs[1..], version))
  }

  /** For RESP3 a map keeps its entries: they only degrade inside. */
  lemma {:induction false} MapKeepsEntries(pairs: seq<Pair>, version: nat, i: nat)
    requires i < |pairs|
    ensures Pairs(DegradePairs(pairs, version))[i] == Pair(Degrade(pairs[i].key, version), Degrade(pairs[i].val, version))
  {
    var d := DegradePairs(pairs, version);
    assert d[0] == Degrade(pairs[0].key, version) && d[1] == Degrade(pairs[0].val, version);
    assert d[2..] == DegradePairs(pairs[1..], version);
    if i > 0 { MapKeepsEntries(pairs[1..], version, i - 1); }
  }

  // ---- Lines and headers ----

  /** The first CRLF after a line string without one is the terminator. */
  lemma LineEnds(tag: byte, s: Bytes, x: Bytes)
    requires tag != CR
    ensures NoCrlf(s) ==> ParseLine(Line(tag, s) + x) == Ok(s, |Line(tag, s)|)
    ensures !NoCrlf(s) ==> ParseLine(Line(tag, s) + x).Ok? && |ParseLine(Line(tag, s) + x).value| < |s|
  {
    var b := Line(tag, s) + x;
    assert forall i :: 0 <= i < |s| ==> b[1 + i] == s[i];
    assert CrlfAt(b, 1 + |s|);
    var p := FindCrlf(b).value;
    assert p <= 1 + |s|;
    if NoCrlf(s) {
      if p < 1 + |s| {
        assert p > 0 && CrlfAt(s, p - 1);
      }
      assert b[1..p] == s;
    } else {
      var i :| 0 <= i < |s| && CrlfAt(s, i);
      assert b[1 + i] == s[i] && b[1 + (i + 1)] == s[i + 1];
      assert CrlfAt(b, 1 + i);
    }
  }

  lemma DecimalParses(n: nat)
    ensures NoCrlf(Decimal(n))
    ensures ParseI64(Decimal(n)) == (if n < TWO_63 then Some(n) else None)
    ensures ParseUsize(Decimal(n)) == (if n < TWO_64 then Some(n) else None)
  {
    DecimalReadsBack(n);
  }

  lemma CountReadsBack(tag: byte, n: nat, x: Bytes)
    requires IsAggregate(tag)
    ensures n <= MAX_ARRAY_LEN ==> ParseCount(Header(tag, n) + x) == Ok(Some(n), |Header(tag, n)|)
    ensures n > MAX_ARRAY_LEN ==> ParseCount(Header(tag, n) + x).Invalid?
  {
    DecimalParses(n);
    LineEnds(tag, Decimal(n), x);
  }

  lemma IntegerReadsBack(n: i64, x: Bytes)
    ensures ParseResp(Line(INTEGER, IntText(n)) + x) == Ok(Integer(n), |Line(INTEGER, IntText(n))|)
  {
    IntTextReadsBack(n);
    LineEnds(INTEGER, IntText(n), x);
  }

  lemma NullReadsBack(x: Bytes)
    ensures ParseResp(Line(NULL, []) + x) == Ok(Null, |Line(NULL, [])|)
    ensures ParseResp(Line(BULK, IntText(-1)) + x) == Ok(NullBulk, |Line(BULK, IntText(-1))|)
    ensures ParseResp(Line(ARRAY, IntText(-1)) + x) == Ok(NullArray, |Line(ARRAY, IntText(-1))|)
  {
    IntTextReadsBack(-1);
    LineEnds(BULK, IntText(-1), x);
    LineEnds(ARRAY, IntText(-1), x);
  }

  lemma BoolReadsBack(b: bool, x: Bytes)
    ensures var w := Line(BOOL, [if b then LETTER_T else LETTER_F]); ParseResp(w + x) == Ok(Bool(b), |w|)
  {
  }

  lemma DoubleReadsBack(s: Bytes, x: Bytes)
    ensures var w := Line(DOUBLE, s); var r := ParseResp(w + x);
      if IsFloat(s) && NoCrlf(s) then r == Ok(Double(s), |w|) else !r.Ok? || r.value != Double(s)
  {
    LineEnds(DOUBLE, s, x);
  }

  lemma BulkBody(h: Bytes, d: Bytes, x: Bytes)
    ensures var b := h + d + CRLF + x;
      b == h + (d + CRLF + x) && b[|h|..|h| + |d|] == d && CrlfAt(b, |h| + |d|)
  {
    var b := h + d + CRLF + x;
    assert b[|h| + |d|] == CR && b[|h| + |d| + 1] == LF;
  }

  lemma BulkAt(b: Bytes, h: nat, line: Bytes, d: Bytes)
    requires b != [] && b[0] == BULK && ParseLine(b) == Ok(line, h)
    requires ParseI64(line) == if |d| < TWO_63 then Some(|d|) else None
    requires h + |d| + 2 <= |b| && b[h..h + |d|] == d && CrlfAt(b, h + |d|)
    ensures if |d| <= MAX_BULK_LEN then ParseBulk(b) == Ok(BulkString(d), h + |d| + 2) else ParseBulk(b).Invalid?
  {
  }

  lemma BulkLine(d: Bytes, x: Bytes)
    ensures var h := Header(BULK, |d|); var b := h + d + CRLF + x;
      && b[0] == BULK && ParseLine(b) == Ok(Decimal(|d|), |h|)
      && ParseI64(Decimal(|d|)) == if |d| < TWO_63 then Some(|d|) else None
  {
    var h, line := Header(BULK, |d|), Decimal(|d|);
    BulkBody(h, d, x);
    DecimalParses(|d|);
    LineEnds(BULK, line, d + CRLF + x);
  }

  lemma RespIsBulk(b: Bytes)
    requires b != [] && b[0] == BULK
    ensures ParseResp(b) == ParseBulk(b)
  {
  }

  lemma BulkReadsBack(d: Bytes, x: Bytes)
    ensures var w := Header(BULK, |d|) + d + CRLF;
      if |d| <= MAX_BULK_LEN then ParseResp(w + x) == Ok(BulkString(d), |w|) else ParseResp(w + x).Invalid?
  {
    var h := Header(BULK, |d|);
    var b := h + d + CRLF + x;
    BulkBody(h, d, x);
    BulkLine(d, x);
    BulkAt(b, |h|, Decimal(|d|), d);
    RespIsBulk(b);
  }

  /** Frames without inner frames. */
  predicate IsLeaf(v: Resp) {
    !(v.Array? || v.Set? || v.Push? || v.Map?)
  }

  lemma LeafReadsBack(v: Resp, version: nat, x: Bytes)
    requires IsLeaf(v) && Plain(v)
    ensures Printable(v, version) ==>
      ParseResp(Print(v, version) + x) == Ok(Degrade(v, version), |Print(v, version)|)
    ensures !Printable(v, version) ==>
      !ParseResp(Print(v, version) + x).Ok? || ParseResp(Print(v, version) + x).value != Degrade(v, version)
  {
    match v {
      case SimpleString(s) => LineEnds(SIMPLE, s, x);
      case Error(s) => LineEnds(ERROR, s, x);
      case Integer(n) => IntegerReadsBack(n, x);
      case BulkString(d) => BulkReadsBack(d, x);
      case Double(s) =>
        DoubleReadsBack(s, x);
        BulkReadsBack(s, x);
      case Bool(b) =>
        BoolReadsBack(b, x);
        IntegerReadsBack(if b then 1 else 0, x);
      case _ => NullReadsBack(x);
    }
  }

  // ---- Aggregates ----

  /** The header, the number of values after it, and the body of an aggregate's wire form. */
  function WireTag(v: Resp, version: nat): byte
    requires !IsLeaf(v)
  {
    if version < 3 then ARRAY else if v.Array? then ARRAY else if v.Set? then SET else if v.Push? then PUSH else MAP
  }

  function WireCount(v: Resp, version: nat): nat
    requires !IsLeaf(v)
  {
    if v.Map? then (if version >= 3 then |v.pairs| else 2 * |v.pairs|) else |v.items|
  }

  function WireBody(v: Resp, version: nat): Bytes
    requires !IsLeaf(v)
  {
    if v.Map? then PrintPairs(v.pairs, version) else PrintAll(v.items, version)
  }

  function WireValues(v: Resp, version: nat): seq<Resp>
    requires !IsLeaf(v)
  {
    if v.Map? then DegradePairs(v.pairs, version) else DegradeAll(v.items, version)
  }

  lemma AggregateShape(v: Resp, version: nat)
    requires !IsLeaf(v)
    ensures IsAggregate(WireTag(v, version))
    ensures Print(v, version) == Header(WireTag(v, version), WireCount(v, version)) + WireBody(v, version)
    ensures |WireValues(v, version)| == Arity(WireTag(v, version), WireCount(v, version))
    ensures Degrade(v, version) == Build(WireTag(v, version), WireValues(v, version))
  {
  }

  /** Parsing an aggregate is parsing its count and then that many values. */
  lemma AggregateParse(tag: byte, n: nat, body: Bytes)
    requires IsAggregate(tag)
    ensures n > MAX_ARRAY_LEN ==> ParseResp(Header(tag, n) + body).Invalid?
    ensures n <= MAX_ARRAY_LEN ==>
      ParseResp(Header(tag, n) + body) ==
        (match ParseItems(body, Arity(tag, n))
         case Ok(items, c) => Ok(Build(tag, items), |Header(tag, n)| + c)
         case Incomplete => Incomplete
         case Invalid(f) => Invalid(f))
  {
    var b := Header(tag, n) + body;
    CountReadsBack(tag, n, body);
    assert b[0] == tag;
    assert b[|Header(tag, n)|..] == body;
  }

  lemma ItemsUnfold(p: Bytes, rest: Bytes, n: nat, v: Resp)
    requires n > 0 && ParseResp(p + rest) == Ok(v, |p|)
    ensures ParseItems(p + rest, n) == Prepend(v, |p|, ParseItems(rest, n - 1))
  {
    assert (p + rest)[|p|..] == rest;
  }

  /** Printable values read back, whatever follows them on the wire. */
  lemma {:induction false} ReadsBack(v: Resp, version: nat, x: Bytes)
    requires Plain(v) && Printable(v, version)
    ensures ParseResp(Print(v, version) + x) == Ok(Degrade(v, version), |Print(v, version)|)
    decreases v, 0
  {
    if IsLeaf(v) {
      LeafReadsBack(v, version, x);
    } else {
      AggregateShape(v, version);
      var tag, n, body := WireTag(v, version), WireCount(v, version), WireBody(v, version);
      Assoc(Header(tag, n), body, x);
      AggregateParse(tag, n, body + x);
      if v.Map? {
        PairsReadBack(v.pairs, version, x);
      } else {
        AllReadBack(v.items, version, x);
      }
    }
  }

  lemma {:induction false} AllReadBack(items: seq<Resp>, version: nat, x: Bytes)
    requires AllPlain(items) && AllPrintable(items, version)
    ensures ParseItems(PrintAll(items, version) + x, |items|)
      == Ok(DegradeAll(items, version), |PrintAll(items, version)|)
    decreases items, 1
  {
    if items != [] {
      var p, rest := Print(items[0], version), PrintAll(items[1..], version);
      Assoc(p, rest, x);
      ReadsBack(items[0], version, rest + x);
      AllReadBack(items[1..], version, x);
      ItemsUnfold(p, rest + x, |items|, Degrade(items[0], version));
    }
  }

  lemma {:induction false} PairsReadBack(pairs: seq<Pair>, version: nat, x: Bytes)
    requires PairsPlain(pairs) && PairsPrintable(pairs, version)
    ensures ParseItems(PrintPairs(pairs, version) + x, 2 * |pairs|)
      == Ok(DegradePairs(pairs, version), |PrintPairs(pairs, version)|)
    decreases pairs, 1
  {
    if pairs != [] {
      var k, w, rest := Print(pairs[0].key, version), Print(pairs[0].val, version), PrintPairs(pairs[1..], version);
      Assoc(k, w + rest, x);
      Assoc(w, rest, x);
      assert pairs[0].key < pairs[0] && pairs[0].val < pairs[0];
      ReadsBack(pairs[0].key, version, w + (rest + x));
      ReadsBack(pairs[0].val, version, rest + x);
      PairsReadBack(pairs[1..], version, x);
      TwoItems(k, w, rest + x, 2 * |pairs| - 2, Degrade(pairs[0].key, version), Degrade(pairs[0].val, version));
    }
  }

  lemma TwoItems(k: Bytes, w: Bytes, rest: Bytes, n: nat, kv: Resp, wv: Resp)
    requires ParseResp(k + (w + rest)) == Ok(kv, |k|) && ParseResp(w + rest) == Ok(wv, |w|)
    ensures ParseItems(k + (w + rest), n + 2) == Prepend(kv, |k|, Prepend(wv, |w|, ParseItems(rest, n)))
  {
    ItemsUnfold(w, rest, n + 1, wv);
    ItemsUnfold(k, w + rest, n + 2, kv);
  }

  // ---- The condition is also necessary ----

  lemma {:induction false} OnlyPrintable(v: Resp, version: nat, x: Bytes)
    requires Plain(v)
    requires ParseResp(Print(v, version) + x).Ok? && ParseResp(Print(v, version) + x).value == Degrade(v, version)
    ensures Printable(v, version)
    decreases v, 0
  {
    if IsLeaf(v) {
      LeafReadsBack(v, version, x);
    } else {
      AggregateValues(v, version, x);
      if v.Map? {
        OnlyPairsPrintable(v.pairs, version, x);
      } else {
        OnlyAllPrintable(v.items, version, x);
      }
    }
  }

  /** An aggregate that comes back right had a legal count and the right values inside. */
  lemma AggregateValues(v: Resp, version: nat, x: Bytes)
    requires !IsLeaf(v)
    requires ParseResp(Print(v, version) + x).Ok? && ParseResp(Print(v, version) + x).value == Degrade(v, version)
    ensures WireCount(v, version) <= MAX_ARRAY_LEN
    ensures var r := ParseItems(WireBody(v, version) + x, |WireValues(v, version)|);
      r.Ok? && r.value == WireValues(v, version)
  {
    AggregateShape(v, version);
    var tag, n, body := WireTag(v, version), WireCount(v, version), WireBody(v, version);
    Assoc(Header(tag, n), body, x);
    ValuesInside(tag, n, body + x, WireValues(v, version));
  }

  lemma ValuesInside(tag: byte, n: nat, body: Bytes, vs: seq<Resp>)
    requires IsAggregate(tag) && |vs| == Arity(tag, n)
    requires ParseResp(Header(tag, n) + body).Ok? && ParseResp(Header(tag, n) + body).value == Build(tag, vs)
    ensures n <= MAX_ARRAY_LEN && ParseItems(body, Arity(tag, n)).Ok? && ParseItems(body, Arity(tag, n)).value == vs
  {
    AggregateParse(tag, n, body);
    BuildInjective(tag, ParseItems(body, Arity(tag, n)).value, vs);
  }

  lemma BuildInjective(tag: byte, a: seq<Resp>, b: seq<Resp>)
    requires IsAggregate(tag) && (tag == MAP ==> |a| % 2 == 0 && |b| % 2 == 0)
    requires Build(tag, a) == Build(tag, b)
    ensures a == b
  {
    if tag == MAP { PairsInjective(a, b); }
  }

  lemma {:induction false} PairsInjective(a: seq<Resp>, b: seq<Resp>)
    requires |a| % 2 == 0 && |b| % 2 == 0 && Pairs(a) == Pairs(b)
    ensures a == b
  {
    assert |a| == 2 * |Pairs(a)| == |b|;
    if a != [] {
      assert Pairs(a)[0] == Pair(a[0], a[1]) && Pairs(b)[0] == Pair(b[0], b[1]);
      assert Pairs(a)[1..] == Pairs(a[2..]) && Pairs(b)[1..] == Pairs(b[2..]);
      PairsInjective(a[2..], b[2..]);
      assert a == [a[0], a[1]] + a[2..] && b == [b[0], b[1]] + b[2..];
    }
  }

  /** If `n` values come out as expected then the first one did. */
  lemma ItemsHead(b: Bytes, n: nat, vs: seq<Resp>)
    requires n > 0 && |vs| == n && ParseItems(b, n).Ok? && ParseItems(b, n).value == vs
    ensures ParseResp(b).Ok? && ParseResp(b).value == vs[0]
    ensures ParseItems(b[ParseResp(b).consumed..], n - 1).Ok?
    ensures ParseItems(b[ParseResp(b).consumed..], n - 1).value == vs[1..]
  {
    var c := ParseResp(b).consumed;
    var tail := ParseItems(b[c..], n - 1);
    assert ([ParseResp(b).value] + tail.value)[1..] == tail.value;
  }

  lemma {:induction false} OnlyAllPrintable(items: seq<Resp>, version: nat, x: Bytes)
    requires AllPlain(items)
    requires var r := ParseItems(PrintAll(items, version) + x, |items|); r.Ok? && r.value == DegradeAll(items, version)
    ensures AllPrintable(items, version)
    decreases items, 1
  {
    if items != [] {
      var p, rest := Print(items[0], version), PrintAll(items[1..], version);
      Assoc(p, rest, x);
      ItemsHead(p + (rest + x), |items|, DegradeAll(items, version));
      OnlyPrintable(items[0], version, rest + x);
      ReadsBack(items[0], version, rest + x);
      assert (p + (rest + x))[|p|..] == rest + x;
      OnlyAllPrintable(items[1..], version, x);
    }
  }

  lemma {:induction false} OnlyPairsPrintable(pairs: seq<Pair>, version: nat, x: Bytes)
    requires PairsPlain(pairs)
    requires var r := ParseItems(PrintPairs(pairs, version) + x, 2 * |pairs|);
      r.Ok? && r.value == DegradePairs(pairs, version)
    ensures PairsPrintable(pairs, version)
    decreases pairs, 1
  {
    if pairs != [] {
      var k, w, rest := Print(pairs[0].key, version), Print(pairs[0].val, version), PrintPairs(pairs[1..], version);
      var d := DegradePairs(pairs, version);
      Assoc(k, w + rest, x);
      Assoc(w, rest, x);
      assert pairs[0].key < pairs[0] && pairs[0].val < pairs[0];
      ItemsHead(k + (w + (rest + x)), 2 * |pairs|, d);
      OnlyPrintable(pairs[0].key, version, w + (rest + x));
      ReadsBack(pairs[0].key, version, w + (rest + x));
      assert (k + (w + (rest + x)))[|k|..] == w + (rest + x);
      ItemsHead(w + (rest + x), 2 * |pairs| - 1, d[1..]);
      OnlyPrintable(pairs[0].val, version, rest + x);
      ReadsBack(pairs[0].val, version, rest + x);
      assert (w + (rest + x))[|w|..] == rest + x;
      assert d[1..][1..] == DegradePairs(pairs[1..], version);
      OnlyPairsPrintable(pairs[1..], version, x);
    }
  }

  /**
   The round trip, both ways: the printed value followed by anything parses to its degraded form,
   consuming exactly the printed bytes, if and only if the value is printable.
   */
  lemma RoundTrip(v: Resp, version: nat, x: Bytes)
    requires Plain(v)
    ensures ParseResp(Print(v, version) + x) == Ok(Degrade(v, version), |Print(v, version)|) <==> Printable(v, version)
  {
    if Printable(v, version) {
      ReadsBack(v, version, x);
    } else if ParseResp(Print(v, version) + x) == Ok(Degrade(v, version), |Print(v, version)|) {
      OnlyPrintable(v, version, x);
    }
  }

  predicate IsTag(c: byte) {
    IsScalar(c) || IsAggregate(c)
  }

  /**
   An inline line, up to its CRLF: arguments written on it in any of the three ways arrive as an array
   of bulk strings; a line without arguments, and one that is not so written, is refused.
   */
  lemma InlineLineReads(line: Bytes, x: Bytes)
    requires NoCrlf(line) && (line != [] ==> !IsTag(line[0]))
    ensures var r := ParseResp(line + CRLF + x);
      && (forall items, tail :: Writes(line, items, tail) ==>
            r == if items == [] then Invalid(EmptyInline) else Ok(Array(Bulks(Values(items))), |line| + 2))
      && (!IsWritten(line) ==> r == Invalid(UnterminatedQuote))
  {
    var b := line + CRLF + x;
    assert b[..|line|] == line && CrlfAt(b, |line|);
    forall j | 0 <= j < |line| ensures !CrlfAt(b, j) {
      assert !CrlfAt(line, j);
    }
    assert FindCrlf(b) == Some(|line|);
    assert b[0] == if line == [] then CR else line[0];
    InlineLanguage(line);
  }

  /** Any nonempty argument vector can be typed as an inline command and arrives unchanged. */
  lemma InlineCommandReadsBack(args: seq<Bytes>, x: Bytes)
    requires args != []
    ensures var line := Text(AllQuoted(args), 0); ParseResp(line + CRLF + x) == Ok(Array(Bulks(args)), |line| + 2)
  {
    var line := Text(AllQuoted(args), 0);
    QuotedHasNoCr(args, 0);
    assert Writes(line, AllQuoted(args), 0);
    assert line[0] == SPACE;
    InlineLineReads(line, x);
  }
}
