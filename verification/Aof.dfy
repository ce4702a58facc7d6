/**
 The append-only-file reader: raw bytes are kept in step with the parser so that every
 command comes back with its original framing, whatever sizes the reads have.
 */
module Aof {
  import opened ByteStrings
  import opened RespValue
  import opened RespParse
  import opened RespStream

  /** How a replay ends; offsets are file positions. */
  datatype Ending = CleanEof | ParseErrorAt(offset: nat, fault: Fault) | TruncatedAt(offset: nat)

  datatype Replay = Replay(commands: seq<Bytes>, ending: Ending)

  datatype Next = Command(raw: Bytes) | Done(ending: Ending)

  const CHUNK: nat := 8 * 1024

  /** The next item of a stream whose first byte is at file position `offset`. */
  function NextOf(b: Bytes, offset: nat): (r: Next)
    ensures r.Command? ==> r.raw != [] && r.raw <= b
  {
    if b == [] then Done(CleanEof)
    else
      match ParseResp(b)
      case Ok(_, c) => Command(b[..c])
      case Incomplete => Done(TruncatedAt(offset))
      case Invalid(f) => Done(ParseErrorAt(offset, f))
  }

  /** A way of cutting items off the front of a stream, such as `NextOf`. */
  type Cutter = (Bytes, nat) -> Next

  ghost predicate Cuts(next: Cutter) {
    forall b, o :: next(b, o).Command? ==> next(b, o).raw != [] && next(b, o).raw <= b
  }

  /** A stream cut into commands until something other than a command comes. */
  ghost function ReplayBy(next: Cutter, b: Bytes, offset: nat): Replay
    requires Cuts(next)
    decreases |b|
  {
    match next(b, offset)
    case Done(e) => Replay([], e)
    case Command(raw) =>
      var rest := ReplayBy(next, b[|raw|..], offset + |raw|);
      Replay([raw] + rest.commands, rest.ending)
  }

  /** The reference: the whole file cut into frames in one go. */
  ghost function ReplayOf(b: Bytes, offset: nat): Replay {
    assert Cuts(NextOf);
    ReplayBy(NextOf, b, offset)
  }

  class AofReader {
    var unread: Bytes         // the rest of the file
    var parser: RespParser
    var pending: Bytes        // raw mirror of the parser's buffer
    var consumed: nat         // file position of pending[0]
    var eof: bool

    ghost predicate Valid()
      reads this, parser
    {
      parser.buf == pending && (eof ==> unread == [])
    }

    /** Everything not yet returned as a command. */
    ghost function Stream(): Bytes
      reads this
    {
      pending + unread
    }

    constructor (file: Bytes)
      ensures Valid() && fresh(parser) && Stream() == file && consumed == 0
    {
      unread, pending, consumed, eof := file, [], 0, false;
      parser := new RespParser();
    }

    /** One read: some nonempty part of the rest, at most a chunk, or nothing at the end of the file. */
    method Read() returns (data: Bytes)
      modifies this`unread
      ensures old(unread) == data + unread && |data| <= CHUNK
      ensures data == [] <==> old(unread) == []
    {
      if unread == [] { return []; }
      var n :| 0 < n <= |unread| && n <= CHUNK;
      data := unread[..n];
      unread := unread[n..];
    }

    /** The next raw command, a clean end, or the position of the first frame that is cut short or malformed. */
    method NextCommand() returns (r: Next)
      requires Valid()
      modifies this, parser
      ensures Valid() && parser == old(parser)
      ensures r == NextOf(old(Stream()), old(consumed))
      ensures match r
        case Command(raw) => raw != [] && old(Stream()) == raw + Stream() && Stream() == old(Stream())[|raw|..] && consumed == old(consumed) + |raw|
        case Done(_) => Stream() == old(Stream()) && consumed == old(consumed)
    {
      while true
        invariant Valid() && parser == old(parser)
        invariant Stream() == old(Stream()) && consumed == old(consumed)
        decreases |unread|, !eof
      {
        if pending != [] {
          ghost var before := pending;
          var buffered := parser.BufferedLen();
          var one := parser.ParseOne();
          match one {
            case Value(_) =>
              PrefixDecides(pending, unread, consumed);
              var len := buffered - parser.BufferedLen();
              var cmd := pending[..len];
              pending := pending[len..];
              consumed := consumed + len;
              assert before == cmd + pending;
              Assoc(cmd, pending, unread);
              return Command(cmd);
            case ProtocolError(f) =>
              PrefixDecides(pending, unread, consumed);
              return Done(ParseErrorAt(consumed, f));
            case NeedMore =>
          }
        }
        if eof {
          assert Stream() == pending;
          return Done(if pending == [] then CleanEof else TruncatedAt(consumed));
        }
        var data := Read();
        if data == [] {
          eof := true;
        } else {
          parser.Feed(data);
          Assoc(pending, data, unread);
          pending := pending + data;
        }
      }
    }

    /** Preflight: reads to the end without applying anything. */
    method ScanToEof() returns (e: Ending)
      requires Valid()
      modifies this, parser
      ensures e == ReplayOf(old(Stream()), old(consumed)).ending
    {
      ghost var goal := ReplayOf(Stream(), consumed).ending;
      while true
        invariant Valid() && parser == old(parser)
        invariant EndsAs(Stream(), consumed, goal)
        decreases |Stream()|
      {
        var ending := SkipOne(goal);
        if ending.Some? { return ending.value; }
      }
    }

    /** Reads past one command, or reports the ending. */
    method SkipOne(ghost goal: Ending) returns (ending: Option<Ending>)
      requires Valid() && EndsAs(Stream(), consumed, goal)
      modifies this, parser
      ensures Valid() && parser == old(parser)
      ensures ending.Some? ==> ending.value == goal
      ensures ending.None? ==> EndsAs(Stream(), consumed, goal) && |Stream()| < |old(Stream())|
    {
      EndsStep(Stream(), consumed, goal);
      var r := NextCommand();
      ending := if r.Command? then None else Some(r.ending);
    }
  }

  ghost predicate EndsAs(b: Bytes, offset: nat, e: Ending) {
    ReplayOf(b, offset).ending == e
  }

  /** Taking a command off the front does not change how the replay ends. */
  lemma EndsStep(b: Bytes, offset: nat, e: Ending)
    requires EndsAs(b, offset, e)
    ensures match NextOf(b, offset)
      case Command(raw) => EndsAs(b[|raw|..], offset + |raw|, e)
      case Done(ending) => ending == e
  {
    ReplayStep(b, offset);
  }

  /** The buffered prefix already decides the next item, unless it stops inside a frame. */
  lemma PrefixDecides(pending: Bytes, unread: Bytes, offset: nat)
    requires pending != [] && !ParseResp(pending).Incomplete?
    ensures NextOf(pending + unread, offset) == NextOf(pending, offset)
  {
    ParseStable(pending, unread);
    if ParseResp(pending).Ok? {
      var c := ParseResp(pending).consumed;
      assert (pending + unread)[..c] == pending[..c];
    }
  }

  /** Replays a file through the reader. The result does not depend on how reads were cut. */
  method ReplayFile(file: Bytes) returns (r: Replay)
    ensures r == ReplayOf(file, 0)
  {
    var reader := new AofReader(file);
    r := ReplayRest(reader);
  }

  lemma ReplayStep(b: Bytes, offset: nat)
    ensures ReplayOf(b, offset) ==
      match NextOf(b, offset)
      case Done(e) => Replay([], e)
      case Command(raw) =>
        var rest := ReplayOf(b[|raw|..], offset + |raw|);
        Replay([raw] + rest.commands, rest.ending)
  {
  }

  method ReplayRest(reader: AofReader) returns (r: Replay)
    requires reader.Valid()
    modifies reader, reader.parser
    ensures r == ReplayOf(old(reader.Stream()), old(reader.consumed))
    decreases |reader.Stream()|
  {
    ghost var before, offset := reader.Stream(), reader.consumed;
    var next := reader.NextCommand();
    ReplayStep(before, offset);
    match next {
      case Command(raw) =>
        assert before[|raw|..] == reader.Stream();
        var rest := ReplayRest(reader);
        r := Replay([raw] + rest.commands, rest.ending);
      case Done(ending) => r := Replay([], ending);
    }
  }

  /**
   What a replay `r` of the bytes `b` from file position `offset` accounts for: its commands are a
   prefix of `b`, and the reader stops right after them for the reason given.
   */
  ghost predicate Covers(next: Cutter, b: Bytes, offset: nat, r: Replay) {
    var n := |Flatten(r.commands)|;
    n <= |b| && Flatten(r.commands) == b[..n] && next(b[n..], offset + n) == Done(r.ending)
  }

  lemma CoversStep(next: Cutter, b: Bytes, offset: nat, raw: Bytes, r: Replay)
    requires raw <= b && Covers(next, b[|raw|..], offset + |raw|, r)
    ensures Covers(next, b, offset, Replay([raw] + r.commands, r.ending))
  {
    var n, rest := |Flatten(r.commands)|, b[|raw|..];
    assert ([raw] + r.commands)[1..] == r.commands;
    assert Flatten([raw] + r.commands) == raw + Flatten(r.commands);
    assert b[..|raw| + n] == raw + rest[..n];
    assert b[|raw| + n..] == rest[n..];
  }

  /** The commands of a replay are the stream up to the point where the reader stopped. */
  lemma {:induction false} ReplayCovers(next: Cutter, b: Bytes, offset: nat)
    requires Cuts(next)
    ensures Covers(next, b, offset, ReplayBy(next, b, offset))
    decreases |b|
  {
    match next(b, offset)
    case Done(e) =>
      assert b[0..] == b;
    case Command(raw) =>
      ReplayCovers(next, b[|raw|..], offset + |raw|);
      CoversStep(next, b, offset, raw, ReplayBy(next, b[|raw|..], offset + |raw|));
  }

  /**
   A replay accounts for every byte: the commands concatenate to the whole file exactly when it ends
   cleanly; otherwise they are the file up to the reported offset, and the frame there is cut short
   or malformed, as reported.
   */
  lemma ReplayCoversFile(file: Bytes)
    ensures var r := ReplayOf(file, 0); var n := |Flatten(r.commands)|;
      && n <= |file| && Flatten(r.commands) == file[..n]
      && (r.ending == CleanEof <==> Flatten(r.commands) == file)
      && (forall at :: r.ending == TruncatedAt(at) ==> at == n < |file| && ParseResp(file[n..]).Incomplete?)
      && (forall at, f :: r.ending == ParseErrorAt(at, f) ==> at == n < |file| && ParseResp(file[n..]) == Invalid(f))
  {
    ReplayCovers(NextOf, file, 0);
    StoppedAt(file, |Flatten(ReplayOf(file, 0).commands)|, ReplayOf(file, 0).ending);
    assert file[..|file|] == file;
  }

  lemma StoppedAt(file: Bytes, n: nat, e: Ending)
    requires n <= |file| && NextOf(file[n..], n) == Done(e)
    ensures e == CleanEof <==> n == |file|
    ensures forall at :: e == TruncatedAt(at) ==> at == n < |file| && ParseResp(file[n..]).Incomplete?
    ensures forall at, f :: e == ParseErrorAt(at, f) ==> at == n < |file| && ParseResp(file[n..]) == Invalid(f)
  {
  }

  /** The bytes are one complete frame and nothing else. */
  predicate IsFrame(raw: Bytes) {
    ParseResp(raw).Ok? && ParseResp(raw).consumed == |raw|
  }

  lemma FirstIsFrame(b: Bytes, offset: nat)
    requires NextOf(b, offset).Command?
    ensures IsFrame(NextOf(b, offset).raw)
  {
    FrameLocal(b);
  }

  /** What holds of the first command of every stream holds of every command of a replay. */
  lemma {:induction false} EveryCommand(next: Cutter, b: Bytes, offset: nat, i: nat, P: Bytes -> bool)
    requires Cuts(next) && i < |ReplayBy(next, b, offset).commands|
    requires forall b', o :: next(b', o).Command? ==> P(next(b', o).raw)
    ensures P(ReplayBy(next, b, offset).commands[i])
    decreases |b|
  {
    var raw := next(b, offset).raw;
    if i > 0 { EveryCommand(next, b[|raw|..], offset + |raw|, i - 1, P); }
  }

  /** Every replayed command is one complete frame. */
  lemma CommandsAreFrames(b: Bytes, offset: nat, i: nat)
    requires i < |ReplayOf(b, offset).commands|
    ensures IsFrame(ReplayOf(b, offset).commands[i])
  {
    var P: Bytes -> bool := raw => IsFrame(raw);
    forall b', o | NextOf(b', o).Command? ensures P(NextOf(b', o).raw) {
      FirstIsFrame(b', o);
    }
    EveryCommand(NextOf, b, offset, i, P);
  }
}
