/** Raw byte strings: keys, values, patterns and wire data are all sequences of bytes. */
module ByteStrings {

  type byte = b: int | 0 <= b < 256

  type Bytes = seq<byte>

  datatype Option<+T> = None | Some(value: T) {
    function GetOr(default: T): T {
      if Some? then value else default
    }
  }

  function Max(a: nat, b: nat): nat {
    if a < b then b else a
  }

  function SaturatingSub(a: nat, b: nat): nat {
    if a < b then 0 else a - b
  }

  lemma {:induction false} SubsetSize<T>(a: set<T>, b: set<T>)
    requires a <= b
    ensures |a| <= |b|
  {
    if a != {} {
      var x :| x in a;
      SubsetSize(a - {x}, b - {x});
    }
  }

  lemma Assoc(a: Bytes, b: Bytes, c: Bytes)
    ensures a + b + c == a + (b + c)
  {
  }

  /** `part` stands at position `i` of `line`. */
  ghost predicate Holds(line: Bytes, i: nat, part: Bytes) {
    i + |part| <= |line| && line[i..i + |part|] == part
  }

  lemma HoldsSplit(line: Bytes, i: nat, a: Bytes, b: Bytes)
    requires Holds(line, i, a + b)
    ensures Holds(line, i, a) && Holds(line, i + |a|, b)
  {
    assert line[i..i + |a|] == line[i..i + |a + b|][..|a|];
    assert line[i + |a|..i + |a| + |b|] == line[i..i + |a + b|][|a|..];
  }

  lemma HoldsAt(line: Bytes, i: nat, part: Bytes, k: nat)
    requires Holds(line, i, part) && k < |part|
    ensures line[i + k] == part[k]
  {
    assert line[i + k] == line[i..i + |part|][k];
  }
}
