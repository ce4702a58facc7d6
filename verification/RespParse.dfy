/**
 The RESP parser: one frame off the front of a buffer, with an Incomplete outcome when
 the buffer stops short of the frame's end.
 */
module RespParse {
  import opened ByteStrings
  import opened RespText
  import opened RespValue
  import opened RespInline

  predicate CrlfAt(b: Bytes, i: nat) {
    i + 1 < |b| && b[i] == CR && b[i + 1] == LF
  }

  /** Position of the first CRLF at or after `i`. */
  function FindCrlfFrom(b: Bytes, i: nat): (r: Option<nat>)
    requires i <= |b|
    ensures r.Some? ==> i <= r.value && CrlfAt(b, r.value) && forall j :: i <= j < r.value ==> !CrlfAt(b, j)
    ensures r.None? ==> forall j :: i <= j ==> !CrlfAt(b, j)
    decreases |b| - i
  {
    if i + 1 >= |b| then None
    else if CrlfAt(b, i) then Some(i)
    else FindCrlfFrom(b, i + 1)
  }

  function FindCrlf(b: Bytes): Option<nat> {
    FindCrlfFrom(b, 0)
  }

  /** The text between the type byte and the first CRLF. */
  function ParseLine(b: Bytes): (r: ParseResult<Bytes>)
    requires b != [] && b[0] != CR
    ensures r.Ok? ==> 3 <= r.consumed <= |b|
    ensures !r.Invalid?
  {
    match FindCrlf(b)
    case Some(pos) => Ok(b[1..pos], pos + 2)
    case None => Incomplete
  }

  // ---- str::parse::<f64> as a grammar ----

  function DigitRun(s: Bytes, i: nat): (j: nat)
    requires i <= |s|
    ensures i <= j <= |s|
    decreases |s| - i
  {
    if i < |s| && IsDigit(s[i]) then DigitRun(s, i + 1) else i
  }

  predicate IsExponent(s: Bytes, i: nat)
    requires i <= |s|
  {
    i == |s| ||
    ((s[i] == 101 || s[i] == 69) &&
     var m := if i + 1 < |s| && (s[i + 1] == PLUS || s[i + 1] == MINUS) then i + 2 else i + 1;
     m < |s| && DigitRun(s, m) == |s|)
  }

  predicate IsNumber(s: Bytes) {
    var i := DigitRun(s, 0);
    if i < |s| && s[i] == 46 then
      var k := DigitRun(s, i + 1);
      (i > 0 || k > i + 1) && IsExponent(s, k)
    else
      i > 0 && IsExponent(s, i)
  }

  function Lower(s: Bytes): Bytes {
    seq(|s|, i requires 0 <= i < |s| => if 65 <= s[i] <= 90 then s[i] + 32 else s[i])
  }

  predicate IsFloat(s: Bytes) {
    var t := if s != [] && (s[0] == PLUS || s[0] == MINUS) then s[1..] else s;
    || Lower(t) == [105, 110, 102]                                // inf
    || Lower(t) == [105, 110, 102, 105, 110, 105, 116, 121]       // infinity
    || Lower(t) == [110, 97, 110]                                 // nan
    || IsNumber(t)
  }

  // ---- Scalars ----

  function ParseInteger(b: Bytes): (r: ParseResult<Resp>)
    requires b != [] && b[0] != CR
    ensures r.Ok? ==> 3 <= r.consumed <= |b|
  {
    match ParseLine(b)
    case Ok(line, h) => (match ParseI64(line) case Some(n) => Ok(Integer(n), h) case None => Invalid(BadInteger))
    case _ => Incomplete
  }

  function ParseBulk(b: Bytes): (r: ParseResult<Resp>)
    requires b != [] && b[0] != CR
    ensures r.Ok? ==> 3 <= r.consumed <= |b|
  {
    match ParseLine(b)
    case Ok(line, h) =>
      (match ParseI64(line)
       case None => Invalid(BadBulkLength)
       case Some(n) =>
         if n == -1 then Ok(NullBulk, h)
         else if n < 0 || n > MAX_BULK_LEN then Invalid(BadBulkLength)
         else if |b| < h + n + 2 then Incomplete
         else if !CrlfAt(b, h + n) then Invalid(BadBulkEnd)
         else Ok(BulkString(b[h..h + n]), h + n + 2))
    case _ => Incomplete
  }

  function ParseNull(b: Bytes): (r: ParseResult<Resp>)
    ensures r.Ok? ==> 3 <= r.consumed <= |b|
  {
    if |b| < 3 then Incomplete else if !CrlfAt(b, 1) then Invalid(BadNull) else Ok(Null, 3)
  }

  function ParseBool(b: Bytes): (r: ParseResult<Resp>)
    ensures r.Ok? ==> 3 <= r.consumed <= |b|
  {
    if |b| < 4 then Incomplete
    else if b[1] != LETTER_T && b[1] != LETTER_F then Invalid(BadBool)
    else if !CrlfAt(b, 2) then Invalid(BadBool)
    else Ok(Bool(b[1] == LETTER_T), 4)
  }

  function ParseDouble(b: Bytes): (r: ParseResult<Resp>)
    requires b != [] && b[0] != CR
    ensures r.Ok? ==> 3 <= r.consumed <= |b|
  {
    match ParseLine(b)
    case Ok(line, h) => if IsFloat(line) then Ok(Double(line), h) else Invalid(BadDouble)
    case _ => Incomplete
  }

  function ParseInline(b: Bytes): (r: ParseResult<Resp>)
    ensures r.Ok? ==> 0 < r.consumed <= |b|
  {
    match FindCrlf(b)
    case None => Incomplete
    case Some(pos) =>
      match Tokens(b[..pos], 0)
      case None => Invalid(UnterminatedQuote)
      case Some(parts) => if parts == [] then Invalid(EmptyInline) else Ok(Array(Bulks(parts)), pos + 2)
  }

  function Bulks(parts: seq<Bytes>): (r: seq<Resp>)
    ensures |r| == |parts| && forall i :: 0 <= i < |r| ==> r[i] == BulkString(parts[i])
  {
    seq(|parts|, i requires 0 <= i < |parts| => BulkString(parts[i]))
  }

  // ---- Aggregates ----

  /** The element count of an aggregate header; an array may also carry -1. */
  function ParseCount(b: Bytes): (r: ParseResult<Option<nat>>)
    requires b != [] && b[0] != CR
    ensures r.Ok? ==> 3 <= r.consumed <= |b| && (r.value.Some? ==> r.value.value <= MAX_ARRAY_LEN)
  {
    match ParseLine(b)
    case Ok(line, h) =>
      if b[0] == ARRAY then
        (match ParseI64(line)
         case None => Invalid(BadArrayLength)
         case Some(n) =>
           if n == -1 then Ok(None, h)
           else if n < 0 || n > MAX_ARRAY_LEN then Invalid(BadArrayLength)
           else Ok(Some(n), h))
      else
        (match ParseUsize(line)
         case None => Invalid(LengthFault(b[0]))
         case Some(n) => if n > MAX_ARRAY_LEN then Invalid(LengthFault(b[0])) else Ok(Some(n), h))
    case _ => Incomplete
  }

  function LengthFault(tag: byte): Fault {
    if tag == MAP then BadMapLength else if tag == SET then BadSetLength else BadPushLength
  }

  /** How many values follow a header that announces `n`: a map has two per entry. */
  function Arity(tag: byte, n: nat): nat {
    if tag == MAP then 2 * n else n
  }

  function Build(tag: byte, items: seq<Resp>): Resp
    requires tag == MAP ==> |items| % 2 == 0
  {
    if tag == ARRAY then Array(items)
    else if tag == MAP then Map(Pairs(items))
    else if tag == SET then Set(items)
    else Push(items)
  }

  predicate IsAggregate(tag: byte) {
    tag == ARRAY || tag == MAP || tag == SET || tag == PUSH
  }

  predicate IsScalar(tag: byte) {
    tag == SIMPLE || tag == ERROR || tag == INTEGER || tag == BULK || tag == NULL || tag == BOOL || tag == DOUBLE
  }

  /** One frame off the front of `b`. */
  function ParseResp(b: Bytes): (r: ParseResult<Resp>)
    ensures r.Ok? ==> 0 < r.consumed <= |b|
    decreases |b|, 0
  {
    if b == [] then Incomplete
    else if b[0] == SIMPLE then
      (match ParseLine(b) case Ok(line, h) => Ok(SimpleString(line), h) case _ => Incomplete)
    else if b[0] == ERROR then
      (match ParseLine(b) case Ok(line, h) => Ok(Error(line), h) case _ => Incomplete)
    else if b[0] == INTEGER then ParseInteger(b)
    else if b[0] == BULK then ParseBulk(b)
    else if b[0] == NULL then ParseNull(b)
    else if b[0] == BOOL then ParseBool(b)
    else if b[0] == DOUBLE then ParseDouble(b)
    else if IsAggregate(b[0]) then
      (match ParseCount(b)
       case Ok(Some(n), h) =>
         (match ParseItems(b[h..], Arity(b[0], n))
          case Ok(items, c) => Ok(Build(b[0], items), h + c)
          case Incomplete => Incomplete
          case Invalid(f) => Invalid(f))
       case Ok(None, h) => Ok(NullArray, h)
       case Incomplete => Incomplete
       case Invalid(f) => Invalid(f))
    else ParseInline(b)
  }

  /** `n` frames one after the other. */
  function ParseItems(b: Bytes, n: nat): (r: ParseResult<seq<Resp>>)
    ensures r.Ok? ==> |r.value| == n && r.consumed <= |b|
    decreases |b|, 1, n
  {
    if n == 0 then Ok([], 0)
    else
      match ParseResp(b)
      case Ok(v, c) => Prepend(v, c, ParseItems(b[c..], n - 1))
      case Incomplete => Incomplete
      case Invalid(f) => Invalid(f)
  }

  function Prepend(v: Resp, c: nat, r: ParseResult<seq<Resp>>): ParseResult<seq<Resp>> {
    match r
    case Ok(vs, d) => Ok([v] + vs, c + d)
    case _ => r
  }

  // ---- The parser as the source runs it: aggregates are loops over a moving offset ----

  method ParseValue(b: Bytes) returns (r: ParseResult<Resp>)
    ensures r == ParseResp(b)
    decreases |b|, 0, 2
  {
    if b != [] && IsAggregate(b[0]) {
      r := ParseAggregate(b);
    } else if b != [] && !IsScalar(b[0]) {
      r := ParseInlineLine(b);
    } else {
      r := ParseResp(b);
    }
  }

  method ParseAggregate(b: Bytes) returns (r: ParseResult<Resp>)
    requires b != [] && IsAggregate(b[0])
    ensures r == ParseResp(b)
    decreases |b|, 0, 1
  {
    match ParseCount(b) {
      case Ok(Some(n), h) =>
        var items := ParseElements(b, h, Arity(b[0], n));
        AggregateIs(b, n, h);
        match items {
          case Ok(vs, offset) => r := Ok(Build(b[0], vs), offset);
          case Incomplete => r := Incomplete;
          case Invalid(f) => r := Invalid(f);
        }
      case Ok(None, h) => r := Ok(NullArray, h);
      case Incomplete => r := Incomplete;
      case Invalid(f) => r := Invalid(f);
    }
  }

  lemma AggregateIs(b: Bytes, n: nat, h: nat)
    requires b != [] && IsAggregate(b[0]) && ParseCount(b) == Ok(Some(n), h)
    ensures ParseResp(b) ==
      (match Shift(h, ParseItems(b[h..], Arity(b[0], n)))
       case Ok(items, c) => Ok(Build(b[0], items), c)
       case Incomplete => Incomplete
       case Invalid(f) => Invalid(f))
  {
  }

  method ParseInlineLine(b: Bytes) returns (r: ParseResult<Resp>)
    ensures r == ParseInline(b)
  {
    var crlf := FindCrlf(b);
    if crlf.None? { return Incomplete; }
    var parts := TokenizeInline(b[..crlf.value]);
    if parts.None? { return Invalid(UnterminatedQuote); }
    if parts.value == [] { return Invalid(EmptyInline); }
    return Ok(Array(Bulks(parts.value)), crlf.value + 2);
  }

  /** The loop shared by arrays, sets, pushes and (two values per round) maps; returns the end offset. */
  method ParseElements(b: Bytes, start: nat, n: nat) returns (r: ParseResult<seq<Resp>>)
    requires 0 < start <= |b|
    ensures r == Shift(start, ParseItems(b[start..], n))
    decreases |b|, 0, 0
  {
    var items: seq<Resp> := [];
    var offset := start;
    ghost var goal := Remaining(b, start, n, []);
    GlueNothing(start, ParseItems(b[start..], n));
    for i := 0 to n
      invariant |items| == i && start <= offset <= |b|
      invariant goal == Remaining(b, offset, n - i, items)
    {
      RemainingStep(b, offset, n - i, items);
      var item := ParseValue(b[offset..]);
      match item {
        case Ok(v, c) =>
          items := items + [v];
          offset := offset + c;
        case Incomplete => return Incomplete;
        case Invalid(f) => return Invalid(f);
      }
    }
    RemainingStep(b, offset, 0, items);
    return Ok(items, offset);
  }

  function Shift<T>(h: nat, r: ParseResult<T>): ParseResult<T> {
    match r
    case Ok(v, c) => Ok(v, h + c)
    case _ => r
  }

  ghost function Glue(items: seq<Resp>, offset: nat, r: ParseResult<seq<Resp>>): ParseResult<seq<Resp>> {
    match r
    case Ok(vs, c) => Ok(items + vs, offset + c)
    case _ => r
  }

  /** What remains to be parsed after `items`, with `n` values to go from `offset`. */
  ghost function Remaining(b: Bytes, offset: nat, n: nat, items: seq<Resp>): ParseResult<seq<Resp>>
    requires offset <= |b|
  {
    Glue(items, offset, ParseItems(b[offset..], n))
  }

  /** One round of the loop. */
  lemma RemainingStep(b: Bytes, offset: nat, n: nat, items: seq<Resp>)
    requires offset <= |b|
    ensures n == 0 ==> Remaining(b, offset, n, items) == Ok(items, offset)
    ensures n > 0 ==>
      match ParseResp(b[offset..])
      case Ok(v, c) => Remaining(b, offset, n, items) == Remaining(b, offset + c, n - 1, items + [v])
      case Incomplete => Remaining(b, offset, n, items) == Incomplete
      case Invalid(f) => Remaining(b, offset, n, items) == Invalid(f)
  {
    if n == 0 {
      assert items + [] == items;
    } else if ParseResp(b[offset..]).Ok? {
      var v, c := ParseResp(b[offset..]).value, ParseResp(b[offset..]).consumed;
      assert b[offset..][c..] == b[offset + c..];
      GlueStep(items, offset, v, c, ParseItems(b[offset + c..], n - 1));
    }
  }

  lemma GlueNothing(offset: nat, r: ParseResult<seq<Resp>>)
    ensures Glue([], offset, r) == Shift(offset, r)
  {
    if r.Ok? { assert [] + r.value == r.value; }
  }

  lemma GlueStep(items: seq<Resp>, offset: nat, v: Resp, c: nat, r: ParseResult<seq<Resp>>)
    ensures Glue(items, offset, Prepend(v, c, r)) == Glue(items + [v], offset + c, r)
  {
    if r.Ok? { assert items + ([v] + r.value) == items + [v] + r.value; }
  }
}
