/** RESP values, their type bytes and the parser's limits. */
module RespValue {
  import opened ByteStrings
  import opened RespText

  /** Line strings are kept as their raw bytes. A double is kept as its text. */
  datatype Resp =
    | SimpleString(text: Bytes)
    | Error(text: Bytes)
    | Integer(n: i64)
    | NullBulk
    | BulkString(data: Bytes)
    | NullArray
    | Array(items: seq<Resp>)
    | Null
    | Bool(b: bool)
    | Double(text: Bytes)
    | Map(pairs: seq<Pair>)
    | Set(items: seq<Resp>)
    | Push(items: seq<Resp>)
    | Raw(wire: Bytes)

  datatype Pair = Pair(key: Resp, val: Resp)

  /** Why a frame is malformed. */
  datatype Fault =
    | BadInteger | BadBulkLength | BadBulkEnd | BadArrayLength | BadNull | BadBool | BadDouble
    | BadMapLength | BadSetLength | BadPushLength | EmptyInline | UnterminatedQuote

  datatype ParseResult<+T> =
    | Ok(value: T, consumed: nat)
    | Incomplete
    | Invalid(fault: Fault)

  const MAX_BULK_LEN: nat := 512 * 1024 * 1024
  const MAX_ARRAY_LEN: nat := 1_024_000

  const SIMPLE: byte := '+' as int
  const ERROR: byte := '-' as int
  const INTEGER: byte := ':' as int
  const BULK: byte := '$' as int
  const ARRAY: byte := '*' as int
  const NULL: byte := '_' as int
  const BOOL: byte := '#' as int
  const DOUBLE: byte := ',' as int
  const MAP: byte := '%' as int
  const SET: byte := '~' as int
  const PUSH: byte := '>' as int
  const LETTER_T: byte := 't' as int
  const LETTER_F: byte := 'f' as int

  /** Groups a flat k, v, k, v run. */
  function Pairs(items: seq<Resp>): (r: seq<Pair>)
    requires |items| % 2 == 0
    ensures 2 * |r| == |items|
  {
    if items == [] then [] else [Pair(items[0], items[1])] + Pairs(items[2..])
  }
}
