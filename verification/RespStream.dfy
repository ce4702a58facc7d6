/**
 Streaming: how a value is cut into reads does not matter. A frame that parsed, or that was
 found malformed, stays so whatever bytes arrive later.
 */
module RespStream {
  import opened ByteStrings
  import opened RespValue
  import opened RespParse

  lemma {:induction false} CrlfStable(b: Bytes, x: Bytes, i: nat)
    requires i <= |b| && FindCrlfFrom(b, i).Some?
    ensures FindCrlfFrom(b + x, i) == FindCrlfFrom(b, i)
    decreases |b| - i
  {
    if !CrlfAt(b, i) {
      CrlfStable(b, x, i + 1);
    }
  }

  lemma LineStable(b: Bytes, x: Bytes)
    requires b != [] && b[0] != 13 && ParseLine(b).Ok?
    ensures ParseLine(b + x) == ParseLine(b)
  {
    CrlfStable(b, x, 0);
    var p := FindCrlf(b).value;
    assert (b + x)[1..p] == b[1..p];
  }

  lemma BulkStable(b: Bytes, x: Bytes)
    requires b != [] && b[0] != 13 && !ParseBulk(b).Incomplete?
    ensures ParseBulk(b + x) == ParseBulk(b)
  {
    LineStable(b, x);
    if ParseBulk(b).Ok? && ParseBulk(b).value.BulkString? {
      var h, n := ParseLine(b).consumed, |ParseBulk(b).value.data|;
      assert (b + x)[h..h + n] == b[h..h + n];
    }
  }

  lemma InlineStable(b: Bytes, x: Bytes)
    requires !ParseInline(b).Incomplete?
    ensures ParseInline(b + x) == ParseInline(b)
  {
    CrlfStable(b, x, 0);
    var p := FindCrlf(b).value;
    assert (b + x)[..p] == b[..p];
  }

  lemma CountStable(b: Bytes, x: Bytes)
    requires b != [] && b[0] != 13 && !ParseCount(b).Incomplete?
    ensures ParseCount(b + x) == ParseCount(b)
  {
    LineStable(b, x);
  }

  lemma ScalarStable(b: Bytes, x: Bytes)
    requires b != [] && IsScalar(b[0]) && !ParseResp(b).Incomplete?
    ensures ParseResp(b + x) == ParseResp(b)
  {
    if b[0] == BULK {
      BulkStable(b, x);
    } else if b[0] != NULL && b[0] != BOOL {
      LineStable(b, x);
    }
  }

  /** A value or an error is final: later bytes never change it. */
  lemma {:induction false} ParseStable(b: Bytes, x: Bytes)
    requires !ParseResp(b).Incomplete?
    ensures ParseResp(b + x) == ParseResp(b)
    decreases |b|, 0
  {
    assert (b + x)[0] == b[0];
    if IsScalar(b[0]) {
      ScalarStable(b, x);
    } else if IsAggregate(b[0]) {
      CountStable(b, x);
      if ParseCount(b).Ok? && ParseCount(b).value.Some? {
        var h := ParseCount(b).consumed;
        assert (b + x)[h..] == b[h..] + x;
        ItemsStable(b[h..], Arity(b[0], ParseCount(b).value.value), x);
      }
    } else {
      InlineStable(b, x);
    }
  }

  lemma {:induction false} ItemsStable(b: Bytes, n: nat, x: Bytes)
    requires !ParseItems(b, n).Incomplete?
    ensures ParseItems(b + x, n) == ParseItems(b, n)
    decreases |b|, 1, n
  {
    if n > 0 {
      ParseStable(b, x);
      if ParseResp(b).Ok? {
        var c := ParseResp(b).consumed;
        assert (b + x)[c..] == b[c..] + x;
        ItemsStable(b[c..], n - 1, x);
      }
    }
  }

  // ---- A frame is self-delimiting ----

  lemma CrlfLocal(b: Bytes)
    requires FindCrlf(b).Some?
    ensures FindCrlf(b[..FindCrlf(b).value + 2]) == FindCrlf(b)
  {
    var p := FindCrlf(b).value;
    var c := b[..p + 2];
    assert CrlfAt(c, p);
    forall j: nat | j < p ensures !CrlfAt(c, j) {
      CrlfCut(b, p + 2, j);
    }
  }

  lemma CrlfCut(b: Bytes, e: nat, j: nat)
    requires e <= |b|
    ensures CrlfAt(b[..e], j) ==> CrlfAt(b, j)
  {
  }

  lemma LineLocal(b: Bytes)
    requires b != [] && b[0] != 13 && ParseLine(b).Ok?
    ensures ParseLine(b[..ParseLine(b).consumed]) == ParseLine(b)
  {
    CrlfLocal(b);
    var p := FindCrlf(b).value;
    assert b[..p + 2][1..p] == b[1..p];
  }

  lemma CountLocal(b: Bytes, e: nat)
    requires b != [] && b[0] != 13 && ParseCount(b).Ok? && ParseCount(b).consumed <= e <= |b|
    ensures ParseCount(b[..e]) == ParseCount(b)
  {
    var h := ParseCount(b).consumed;
    LineLocal(b);
    assert ParseCount(b[..h]) == ParseCount(b);
    CountStable(b[..h], b[h..e]);
    assert b[..h] + b[h..e] == b[..e];
  }

  lemma BulkLocal(b: Bytes)
    requires b != [] && b[0] != 13 && ParseBulk(b).Ok?
    ensures ParseBulk(b[..ParseBulk(b).consumed]) == ParseBulk(b)
  {
    var h, c := ParseLine(b).consumed, ParseBulk(b).consumed;
    assert ParseLine(b[..c]) == ParseLine(b) by {
      LineLocal(b);
      LineStable(b[..h], b[h..c]);
      assert b[..h] + b[h..c] == b[..c];
    }
    if c > h { assert b[..c][h..c - 2] == b[h..c - 2]; }
  }

  lemma ScalarLocal(b: Bytes)
    requires b != [] && IsScalar(b[0]) && ParseResp(b).Ok?
    ensures ParseResp(b[..ParseResp(b).consumed]) == ParseResp(b)
  {
    if b[0] == BULK {
      BulkLocal(b);
    } else if b[0] != NULL && b[0] != BOOL {
      LineLocal(b);
    }
  }

  lemma InlineLocal(b: Bytes)
    requires ParseInline(b).Ok?
    ensures ParseInline(b[..ParseInline(b).consumed]) == ParseInline(b)
  {
    CrlfLocal(b);
    var p := FindCrlf(b).value;
    assert b[..p + 2][..p] == b[..p];
  }

  /** The consumed bytes alone already parse to the same value. */
  lemma {:induction false} FrameLocal(b: Bytes)
    requires ParseResp(b).Ok?
    ensures ParseResp(b[..ParseResp(b).consumed]) == ParseResp(b)
    decreases |b|, 0, 1
  {
    if IsScalar(b[0]) {
      ScalarLocal(b);
    } else if IsAggregate(b[0]) {
      AggregateLocal(b);
    } else {
      InlineLocal(b);
    }
  }

  lemma {:induction false} AggregateLocal(b: Bytes)
    requires b != [] && IsAggregate(b[0]) && ParseResp(b).Ok?
    ensures ParseResp(b[..ParseResp(b).consumed]) == ParseResp(b)
    decreases |b|, 0, 0
  {
    var c, h := ParseResp(b).consumed, ParseCount(b).consumed;
    CountLocal(b, c);
    if ParseCount(b).value.Some? {
      var n := ParseCount(b).value.value;
      AggregateIs(b, n, h);
      ItemsLocal(b[h..], Arity(b[0], n));
      assert b[..c][h..] == b[h..][..c - h];
      AggregateIs(b[..c], n, h);
    }
  }

  lemma {:induction false} ItemsLocal(b: Bytes, n: nat)
    requires ParseItems(b, n).Ok?
    ensures ParseItems(b[..ParseItems(b, n).consumed], n) == ParseItems(b, n)
    decreases |b|, 1, n
  {
    if n > 0 {
      var c, d := ParseResp(b).consumed, ParseItems(b, n).consumed;
      var tail := b[c..];
      var rest := ParseItems(tail, n - 1);
      FrameLocal(b);
      ParseStable(b[..c], b[c..d]);
      assert b[..c] + b[c..d] == b[..d];
      ItemsLocal(tail, n - 1);
      assert b[..d][c..] == tail[..d - c];
      ItemsFrom(b[..d], n, ParseResp(b).value, c, rest);
    }
  }

  lemma ItemsFrom(b: Bytes, n: nat, v: Resp, c: nat, rest: ParseResult<seq<Resp>>)
    requires n > 0 && c <= |b| && ParseResp(b) == Ok(v, c) && ParseItems(b[c..], n - 1) == rest
    ensures ParseItems(b, n) == Prepend(v, c, rest)
  {
  }

  /** How a stream ends: at a frame boundary or inside a frame, or at the first malformed one. */
  datatype Ending = Pending(rest: Bytes) | Malformed(fault: Fault)

  /** Values in order, then the ending. */
  datatype Outcome = Outcome(values: seq<Resp>, ending: Ending)

  /** The reference: every frame of the whole stream, parsed in one go. */
  function ParseAll(b: Bytes): Outcome
    decreases |b|
  {
    match ParseResp(b)
    case Ok(v, c) => Cons(v, ParseAll(b[c..]))
    case Incomplete => Outcome([], Pending(b))
    case Invalid(f) => Outcome([], Malformed(f))
  }

  function Cons(v: Resp, o: Outcome): Outcome {
    Outcome([v] + o.values, o.ending)
  }

  /** What an outcome becomes when `x` arrives. */
  function Continue(o: Outcome, x: Bytes): Outcome {
    match o.ending
    case Malformed(_) => o
    case Pending(rest) =>
      var more := ParseAll(rest + x);
      Outcome(o.values + more.values, more.ending)
  }

  lemma ContinueCons(v: Resp, o: Outcome, x: Bytes)
    ensures Continue(Cons(v, o), x) == Cons(v, Continue(o, x))
  {
    if o.ending.Pending? {
      var more := ParseAll(o.ending.rest + x).values;
      assert [v] + (o.values + more) == [v] + o.values + more;
    }
  }

  /** Parsing what has arrived, then the leftover with the rest, is parsing it all. */
  lemma {:induction false} ParseAllConcat(b: Bytes, x: Bytes)
    ensures ParseAll(b + x) == Continue(ParseAll(b), x)
    decreases |b|
  {
    if ParseResp(b).Incomplete? {
      assert [] + ParseAll(b + x).values == ParseAll(b + x).values;
    } else {
      ParseStable(b, x);
      if ParseResp(b).Ok? {
        var c := ParseResp(b).consumed;
        assert (b + x)[c..] == b[c..] + x;
        ParseAllConcat(b[c..], x);
        ContinueCons(ParseResp(b).value, ParseAll(b[c..]), x);
      }
    }
  }

  datatype Parsed = Value(v: Resp) | NeedMore | ProtocolError(fault: Fault)

  /** The connection's parser: bytes fed but not yet consumed. */
  class RespParser {
    var buf: Bytes

    constructor ()
      ensures buf == []
    {
      buf := [];
    }

    method Feed(data: Bytes)
      modifies this
      ensures buf == old(buf) + data
    {
      buf := buf + data;
    }

    function BufferedLen(): nat
      reads this
    {
      |buf|
    }

    /** Takes one frame off the buffer; leaves the buffer alone unless a value comes out. */
    method ParseOne() returns (r: Parsed)
      modifies this
      ensures match ParseResp(old(buf))
        case Ok(v, c) => r == Value(v) && buf == old(buf)[c..]
        case Incomplete => r == NeedMore && buf == old(buf)
        case Invalid(f) => r == ProtocolError(f) && buf == old(buf)
    {
      if buf == [] { return NeedMore; }
      var p := ParseValue(buf);
      match p {
        case Ok(v, c) =>
          buf := buf[c..];
          r := Value(v);
        case Incomplete => r := NeedMore;
        case Invalid(f) => r := ProtocolError(f);
      }
    }
  }

  function Flatten(chunks: seq<Bytes>): Bytes {
    if chunks == [] then [] else chunks[0] + Flatten(chunks[1..])
  }

  lemma {:induction false} FlattenSnoc(chunks: seq<Bytes>, x: Bytes)
    ensures Flatten(chunks + [x]) == Flatten(chunks) + x
  {
    if chunks == [] {
      assert [x] == chunks + [x];
      assert Flatten([x]) == x + Flatten([x][1..]) == x;
    } else {
      assert (chunks + [x])[1..] == chunks[1..] + [x];
      FlattenSnoc(chunks[1..], x);
    }
  }

  /**
   A session: feed each read, then take values until the parser asks for more. For every way of
   cutting the stream into reads the values and the first error are those of the whole stream.
   */
  method Session(chunks: seq<Bytes>) returns (o: Outcome)
    ensures o == ParseAll(Flatten(chunks))
  {
    var parser := new RespParser();
    var values: seq<Resp> := [];
    for i := 0 to |chunks|
      invariant ParseAll(Flatten(chunks[..i])) == Outcome(values, Pending(parser.buf))
      modifies parser
    {
      assert chunks[..i + 1] == chunks[..i] + [chunks[i]];
      FlattenSnoc(chunks[..i], chunks[i]);
      ParseAllConcat(Flatten(chunks[..i]), chunks[i]);
      parser.Feed(chunks[i]);
      var more, fault := TakeAll(parser);
      values := values + more;
      if fault.Some? {
        FirstErrorIsFinal(chunks, i + 1);
        return Outcome(values, Malformed(fault.value));
      }
    }
    assert chunks[..|chunks|] == chunks;
    o := Outcome(values, Pending(parser.buf));
  }

  /** Takes values until the parser needs more bytes or reports an error. */
  method TakeAll(parser: RespParser) returns (values: seq<Resp>, fault: Option<Fault>)
    modifies parser
    ensures ParseAll(old(parser.buf)) ==
      Outcome(values, if fault.Some? then Malformed(fault.value) else Pending(parser.buf))
  {
    values, fault := [], None;
    while true
      invariant ParseAll(old(parser.buf)) == Append(values, ParseAll(parser.buf))
      decreases |parser.buf|
    {
      ghost var before := parser.buf;
      var r := parser.ParseOne();
      match r {
        case Value(v) =>
          AppendCons(values, v, ParseAll(parser.buf));
          values := values + [v];
        case NeedMore =>
          assert values + [] == values;
          return;
        case ProtocolError(f) =>
          assert values + [] == values;
          fault := Some(f);
          return;
      }
    }
  }

  ghost function Append(values: seq<Resp>, o: Outcome): Outcome {
    Outcome(values + o.values, o.ending)
  }

  lemma AppendCons(values: seq<Resp>, v: Resp, o: Outcome)
    ensures Append(values, Cons(v, o)) == Append(values + [v], o)
  {
    assert values + ([v] + o.values) == values + [v] + o.values;
  }

  lemma {:induction false} FirstErrorIsFinal(chunks: seq<Bytes>, i: nat)
    requires i <= |chunks| && ParseAll(Flatten(chunks[..i])).ending.Malformed?
    ensures ParseAll(Flatten(chunks)) == ParseAll(Flatten(chunks[..i]))
    decreases |chunks| - i
  {
    if i == |chunks| {
      assert chunks[..i] == chunks;
    } else {
      assert chunks[..i + 1] == chunks[..i] + [chunks[i]];
      FlattenSnoc(chunks[..i], chunks[i]);
      ParseAllConcat(Flatten(chunks[..i]), chunks[i]);
      FirstErrorIsFinal(chunks, i + 1);
    }
  }
}
