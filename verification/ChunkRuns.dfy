/**
 * How the chunk loops of recvResponse go, as a function of the bytes of the peer, how many of them are in the buffer,
 * and the plan of the transport; and exactly when the body is returned.
 */
module ChunkRuns {
  import opened ChunkCoding
  import opened ChunkLines
  import opened Options
  import opened Streams
  import opened Words

  /** Where the loops stand: the bytes ahead, how many of them are in the buffer, and the calls to come. */
  datatype At = At(s: seq<byte>, buffered: nat, plan: seq<int>)

  /** The buffer is not full, and holds the first bytes ahead. */
  predicate Fits(at: At, room: nat) {
    at.buffered <= |at.s| && at.buffered < room
  }

  /**
   * What recvResponse makes of the body: a body, a closed connection, or a place the source does not define (a
   * chunk length that is negative or whose sum with 2 overflows as an int) or this model does not follow (a second
   * response line).
   */
  datatype Received = Body(body: seq<byte>) | Closed | Undefined | Unmodelled

  /** content_len = strtol(...): saturated to a long, then converted to int. */
  function ContentLen(n: nat): int {
    CastToInt(if n < LONG_LIMIT then n else LONG_LIMIT - 1)
  }

  lemma {:induction false} ContentLenFits(n: nat)
    requires n + 2 < INT_LIMIT
    ensures ContentLen(n) == n
  {
    SmallMod(n, U32);
  }

  /** A size takes some of the bytes and is found in as many as it takes; more bytes do not change what was found. */
  ghost predicate IsReader(line: LineReader) {
    && (forall s {:trigger line(s)} :: line(s).Size? ==> 0 < line(s).used <= |s|)
    && (forall s, have: nat {:trigger line(s[..have])} :: have <= |s| && line(s).Size? && line(s).used <= have ==>
          line(s[..have]) == line(s))
    && (forall s, have: nat {:trigger line(s[..have])} :: have <= |s| && line(s[..have]) != Incomplete ==>
          line(s) == line(s[..have]))
  }

  lemma {:induction false} LineOfIsReader()
    ensures IsReader(LineOf)
  {
    forall s, have: nat | have <= |s| && LineOf(s).Size? && LineOf(s).used <= have
      ensures LineOf(s[..have]) == LineOf(s)
    {
      LineFromTake(s, have, 1, Digits, HexValue(s[0]));
    }
    forall s, have: nat | have <= |s| && LineOf(s[..have]) != Incomplete
      ensures LineOf(s) == LineOf(s[..have])
    {
      assert s[..have] + s[have..] == s;
      LineOfPrefix(s[..have], s[have..]);
    }
  }

  // ---------------------------------------------------------------- the loops

  /** What one read makes of a size line, or all reads together. */
  datatype SizeLine = Parsed(contentLen: int) | Failed | Other | Unfinished

  /** One turn of the inner loop. A line that is not finished is taken as far as it goes. */
  function LineTurn(line: LineReader, at: At, room: nat): (r: (SizeLine, At))
    requires IsReader(line) && Fits(at, room)
    ensures r.0.Parsed? || r.0.Unfinished? ==> Fits(r.1, room) && |r.1.plan| < |at.plan|
  {
    var n := LineRead(CountsOf(at), room);
    if n <= 0 then (Failed, at)
    else
      var have := at.buffered + n;
      match line(at.s[..have])
      case Size(size, used) => (Parsed(ContentLen(size)), At(at.s[used..], have - used, Rest(at.plan)))
      case Incomplete => (Unfinished, At(at.s[have..], 0, Rest(at.plan)))
      case Bad => (Failed, at)
      case Elsewhere => (Other, at)
  }

  lemma {:induction false} LineTurnIs(line: LineReader, at: At, room: nat, n: int, found: Line)
    requires IsReader(line) && Fits(at, room) && n == LineRead(CountsOf(at), room)
    requires n > 0 ==> found == line(at.s[..at.buffered + n])
    ensures LineTurn(line, at, room) ==
            if n <= 0 then (Failed, at)
            else
              match found
              case Size(size, used) => (Parsed(ContentLen(size)),
                                        At(at.s[used..], at.buffered + n - used, Rest(at.plan)))
              case Incomplete => (Unfinished, At(at.s[at.buffered + n..], 0, Rest(at.plan)))
              case Bad => (Failed, at)
              case Elsewhere => (Other, at)
    ensures n > 0 && found.Size? ==> found.used <= at.buffered + n
  {
  }

  /** The inner loop: its outcome, where it ends, and whether the line was split over reads. */
  function ReadLine(line: LineReader, at: At, room: nat): (r: (SizeLine, At, bool))
    requires IsReader(line) && Fits(at, room)
    ensures !r.0.Unfinished? && (r.0.Parsed? ==> Fits(r.1, room) && |r.1.plan| < |at.plan|)
    decreases |at.plan|
  {
    var (size, next) := LineTurn(line, at, room);
    if size.Unfinished? then
      var r := ReadLine(line, next, room);
      (r.0, r.1, true)
    else (size, next, false)
  }

  /** Where the loops stand in numbers: the bytes in the buffer and with the peer, and the calls to come. */
  datatype Counts = Counts(buffered: nat, pending: nat, plan: seq<int>)

  function CountsOf(at: At): Counts
    requires at.buffered <= |at.s|
  {
    Counts(at.buffered, |at.s| - at.buffered, at.plan)
  }

  /** Behind `total` more bytes, if all of them arrive. */
  function Take(c: Counts, total: nat, room: nat): (r: Option<Counts>)
    requires room > 0
    ensures r.Some? ==> r.value.buffered <= c.buffered && |r.value.plan| <= |c.plan|
    ensures r.Some? ==> c.buffered + c.pending == total + r.value.buffered + r.value.pending
    ensures r.Some? && total > 0 && c.buffered > 0 ==> r.value.buffered < c.buffered
  {
    if total <= c.buffered then Some(Counts(c.buffered - total, c.pending, c.plan))
    else
      var left := total - c.buffered;
      var p := Pull(c.pending, c.plan, left, room);
      if p.left > 0 then None else Some(Counts(0, c.pending - left, p.plan))
  }

  /** Behind a chunk of this length and the two bytes that follow it, if all of it arrives. */
  function TakeChunk(at: At, chunkLen: nat, room: nat): (r: Option<At>)
    requires Fits(at, room)
    ensures r.Some? ==> Fits(r.value, room) && |r.value.plan| <= |at.plan| && chunkLen + 2 <= |at.s|
    ensures r.Some? ==> r.value.s == at.s[chunkLen + 2..]
    ensures r.Some? ==> Take(CountsOf(at), chunkLen + 2, room) == Some(CountsOf(r.value))
    ensures r.None? ==> Take(CountsOf(at), chunkLen + 2, room).None?
  {
    match Take(CountsOf(at), chunkLen + 2, room)
    case None => None
    case Some(c) => Some(At(at.s[chunkLen + 2..], c.buffered, c.plan))
  }

  /** The outcome of both loops: what is returned, whether some line was split, and where they end. */
  datatype Outcome = Outcome(r: Received, split: bool, at: At)

  function AssembleWith(line: LineReader, at: At, room: nat): (o: Outcome)
    requires IsReader(line) && Fits(at, room)
    decreases |at.plan|
  {
    var (size, next, split) := ReadLine(line, at, room);
    match size
    case Parsed(len) =>
      if len < 0 || len + 2 >= INT_LIMIT then Outcome(Undefined, split, next)
      else (
        match TakeChunk(next, len, room)
        case None => Outcome(Closed, split, next)
        case Some(after) =>
          if len == 0 then Outcome(Body([]), split, after)
          else Behind(next.s[..len], split, AssembleWith(line, after, room))
      )
    case Other => Outcome(Unmodelled, split, next)
    case _ => Outcome(Closed, split, next)
  }

  /** The same with so much assembled before. */
  function Behind(body: seq<byte>, split: bool, o: Outcome): Outcome {
    Outcome(if o.r.Body? then Body(body + o.r.body) else o.r, split || o.split, o.at)
  }

  /** The loops with the source's machine for size lines. */
  function Assemble(at: At, room: nat): (o: Outcome)
    requires Fits(at, room)
  {
    LineOfIsReader();
    AssembleWith(LineOf, at, room)
  }

  // ---------------------------------------------------------------- when the body is returned

  /** The bytes of one size line, and of the payload behind it, which two more follow. */
  datatype Extent = Extent(line: nat, payload: nat)

  /** The extents of the chunks of s, up to the last chunk or the first that is not all there. */
  function ExtentsWith(line: LineReader, s: seq<byte>): seq<Extent>
    decreases |s|
  {
    match line(s)
    case Size(n, used) =>
      if |s| < used + n + 2 then []
      else [Extent(used, n)] + (if n == 0 then [] else ExtentsWith(line, s[used + n + 2..]))
    case _ => []
  }

  function Extents(s: seq<byte>): seq<Extent> {
    ExtentsWith(LineOf, s)
  }

  /** Everything arrives in time; a size line is cut by the end of a read; or a read gets nothing. */
  datatype Arrival = InTime | Cut | Starved

  /** What the read in front of a size line gets. */
  function LineRead(c: Counts, room: nat): (n: int)
    requires c.buffered < room
    ensures n <= c.pending && c.buffered + n <= room
  {
    CallLen(c.pending, c.plan, room - c.buffered)
  }

  /** Behind a size line of which a read of n bytes has got all. */
  function PastLine(c: Counts, line: nat, n: nat): Counts
    requires line <= c.buffered + n && n <= c.pending
  {
    Counts(c.buffered + n - line, c.pending - n, Rest(c.plan))
  }

  /**
   * Whether chunks of these extents arrive as the loops want them: in front of every size line, also one that is in the
   * buffer already, one more byte must come, the line must then be complete, and what is missing of the chunk must
   * come.
   */
  function Arrives(es: seq<Extent>, c: Counts, room: nat): Arrival
    requires c.buffered < room
    decreases |es|
  {
    if es == [] then InTime
    else
      var n := LineRead(c, room);
      if n <= 0 then Starved
      else if c.buffered + n < es[0].line then Cut
      else
        match Take(PastLine(c, es[0].line, n), es[0].payload + 2, room)
        case None => Starved
        case Some(after) => Arrives(es[1..], after, room)
  }

  /** Each size line costs a read of its own that gets at least one byte. */
  lemma {:induction false} OneReadEach(es: seq<Extent>, c: Counts, room: nat)
    requires c.buffered < room && Arrives(es, c, room).InTime?
    ensures |es| <= |c.plan| && |es| <= c.pending
    decreases |es|
  {
    if es != [] {
      OneReadEach(es[1..], Take(PastLine(c, es[0].line, LineRead(c, room)), es[0].payload + 2, room).value, room);
    }
  }

  function ArrivalOf(line: LineReader, at: At, room: nat): Arrival
    requires Fits(at, room)
  {
    Arrives(ExtentsWith(line, at.s), CountsOf(at), room)
  }

  /** The inner loop in front of a size line: its read gets nothing, cuts the line, or gets all of it. */
  lemma {:induction false} ReadLineExactly(line: LineReader, at: At, room: nat, n: int)
    requires IsReader(line) && Fits(at, room) && line(at.s).Size?
    requires n == LineRead(CountsOf(at), room)
    ensures n <= 0 ==> ReadLine(line, at, room) == (Failed, at, false)
    ensures 0 < n && at.buffered + n < line(at.s).used ==> ReadLine(line, at, room).2
    ensures 0 < n && at.buffered + n >= line(at.s).used ==>
              ReadLine(line, at, room)
              == (Parsed(ContentLen(line(at.s).n)), BehindLine(at, line(at.s).used, n), false)
  {
    if n > 0 {
      var known := line(at.s[..at.buffered + n]);
    }
  }

  /** Behind a size line of which a read of n bytes has got all. */
  function BehindLine(at: At, used: nat, n: nat): At
    requires used <= |at.s| && at.buffered + n >= used
  {
    At(at.s[used..], at.buffered + n - used, Rest(at.plan))
  }

  lemma {:induction false} SizesTurn(line: LineReader, s: seq<byte>)
    requires SizesFitWith(line, s) && line(s).Size?
    ensures line(s).n + 2 < INT_LIMIT
    ensures 0 < line(s).n && line(s).used + line(s).n + 2 <= |s| ==>
              SizesFitWith(line, s[line(s).used + line(s).n + 2..])
  {
  }

  lemma {:induction false} DecodePays(line: LineReader, s: seq<byte>, n: nat, used: nat)
    requires DecodeWith(line, s).Some? && line(s) == Size(n, used)
    ensures |s| >= used + n + 2
    ensures n == 0 ==> DecodeWith(line, s) == Some(([], used + 2))
    ensures n > 0 ==>
              var tail := s[used..][n + 2..];
              && tail == s[used + n + 2..] && DecodeWith(line, tail).Some?
              && DecodeWith(line, s).value.0 == s[used..][..n] + DecodeWith(line, tail).value.0
              && s[DecodeWith(line, s).value.1..] == tail[DecodeWith(line, tail).value.1..]
  {
    assert |s| >= used + n + 2;
    assert s[used..][n + 2..] == s[used + n + 2..] && s[used..][..n] == s[used..used + n];
  }

  lemma {:induction false} ExtentsTurn(line: LineReader, s: seq<byte>, n: nat, used: nat)
    requires |s| >= used + n + 2 && line(s) == Size(n, used)
    ensures n == 0 ==> ExtentsWith(line, s) == [Extent(used, 0)]
    ensures n > 0 ==> ExtentsWith(line, s) == [Extent(used, n)] + ExtentsWith(line, s[used..][n + 2..])
  {
    assert s[used..][n + 2..] == s[used + n + 2..];
  }

  /** The first chunk of a stream that decodes. */
  lemma {:induction false} DecodeTurn(line: LineReader, s: seq<byte>, n: nat, used: nat)
    requires SizesFitWith(line, s) && DecodeWith(line, s).Some? && line(s) == Size(n, used)
    ensures n + 2 < INT_LIMIT && |s| >= used + n + 2
    ensures n == 0 ==> DecodeWith(line, s) == Some(([], used + 2)) && ExtentsWith(line, s) == [Extent(used, 0)]
    ensures n > 0 ==>
              var tail := s[used..][n + 2..];
              && SizesFitWith(line, tail) && DecodeWith(line, tail).Some?
              && ExtentsWith(line, s) == [Extent(used, n)] + ExtentsWith(line, tail)
              && DecodeWith(line, s).value.0 == s[used..][..n] + DecodeWith(line, tail).value.0
              && s[DecodeWith(line, s).value.1..] == tail[DecodeWith(line, tail).value.1..]
  {
    hide DecodeWith, SizesFitWith, ExtentsWith;
    SizesTurn(line, s);
    DecodePays(line, s, n, used);
    ExtentsTurn(line, s, n, used);
  }

  /**
   * An outcome goes with an arrival, the body being this and what follows it that: in time, that body and no line
   * split; cut, some line split; starved, no line split and nothing returned.
   */
  ghost predicate Agree(o: Outcome, a: Arrival, body: seq<byte>, rest: seq<byte>) {
    match a
    case InTime => !o.split && o.r == Body(body) && o.at.s == rest
    case Cut => o.split
    case Starved => !o.split && o.r == Closed
  }

  ghost predicate Exactly(line: LineReader, at: At, room: nat)
    requires IsReader(line) && Fits(at, room) && DecodeWith(line, at.s).Some?
  {
    var (body, used) := DecodeWith(line, at.s).value;
    Agree(AssembleWith(line, at, room), ArrivalOf(line, at, room), body, at.s[used..])
  }

  /** One turn of the outer loop, from the size line on. */
  lemma {:induction false} AssembleTurn(line: LineReader, at: At, room: nat, len: nat, next: At)
    requires IsReader(line) && Fits(at, room) && Fits(next, room) && len + 2 < INT_LIMIT
    requires ReadLine(line, at, room) == (Parsed(len), next, false)
    ensures var after := TakeChunk(next, len, room);
            AssembleWith(line, at, room) ==
            if after.None? then Outcome(Closed, false, next)
            else if len == 0 then Outcome(Body([]), false, after.value)
            else Behind(next.s[..len], false, AssembleWith(line, after.value, room))
  {
  }

  /** The same turn for the extents. */
  lemma {:induction false} ArrivesTurn(es: seq<Extent>, at: At, room: nat, n: int)
    requires es != [] && Fits(at, room) && 0 < n == LineRead(CountsOf(at), room)
    requires 0 < es[0].line <= at.buffered + n && es[0].line <= |at.s|
    ensures Fits(BehindLine(at, es[0].line, n), room)
    ensures var after := TakeChunk(BehindLine(at, es[0].line, n), es[0].payload, room);
            Arrives(es, CountsOf(at), room) == if after.None? then Starved
                else Arrives(es[1..], CountsOf(after.value), room)
  {
    assert CountsOf(BehindLine(at, es[0].line, n)) == PastLine(CountsOf(at), es[0].line, n);
  }

  lemma {:induction false} ExactlyIs(line: LineReader, at: At, room: nat, o: Outcome, a: Arrival, body: seq<byte>,
                                     rest: seq<byte>)
    requires IsReader(line) && Fits(at, room) && DecodeWith(line, at.s).Some?
    requires AssembleWith(line, at, room) == o && ArrivalOf(line, at, room) == a
    requires DecodeWith(line, at.s).value.0 == body && at.s[DecodeWith(line, at.s).value.1..] == rest
    requires Agree(o, a, body, rest)
    ensures Exactly(line, at, room)
  {
  }

  lemma {:induction false} AgreeBehind(o: Outcome, a: Arrival, piece: seq<byte>, body: seq<byte>, rest: seq<byte>)
    requires Agree(o, a, body, rest)
    ensures Agree(Behind(piece, false, o), a, piece + body, rest)
  {
  }

  lemma {:induction false} CutOrStarved(line: LineReader, at: At, room: nat, n: int)
    requires IsReader(line) && Fits(at, room) && SizesFitWith(line, at.s) && DecodeWith(line, at.s).Some?
    requires line(at.s).Size? && n == LineRead(CountsOf(at), room)
    requires n <= 0 || at.buffered + n < line(at.s).used
    ensures Exactly(line, at, room)
  {
    ReadLineExactly(line, at, room, n);
    DecodeTurn(line, at.s, line(at.s).n, line(at.s).used);
  }

  lemma {:induction false} LastChunk(line: LineReader, at: At, room: nat, n: int, used: nat)
    requires IsReader(line) && Fits(at, room) && SizesFitWith(line, at.s) && DecodeWith(line, at.s).Some?
    requires line(at.s) == Size(0, used) && n == LineRead(CountsOf(at), room)
    requires 0 < n && at.buffered + n >= used
    ensures Exactly(line, at, room)
  {
    var next := BehindLine(at, used, n);
    ReadLineExactly(line, at, room, n);
    ContentLenFits(0);
    DecodeTurn(line, at.s, 0, used);
    ArrivesTurn([Extent(used, 0)], at, room, n);
    AssembleTurn(line, at, room, 0, next);
    assert at.s[used..][2..] == at.s[used + 2..];
  }

  lemma {:induction false} MoreChunks(line: LineReader, at: At, room: nat, n: int, used: nat, len: nat)
    requires IsReader(line) && Fits(at, room) && SizesFitWith(line, at.s) && DecodeWith(line, at.s).Some?
    requires line(at.s) == Size(len, used) && len > 0
    requires 0 < n == LineRead(CountsOf(at), room) && at.buffered + n >= used
    requires Fits(BehindLine(at, used, n), room)
    requires var after := TakeChunk(BehindLine(at, used, n), len, room);
             after.Some? ==> DecodeWith(line, after.value.s).Some? && Exactly(line, after.value, room)
    ensures Exactly(line, at, room)
  {
    var next := BehindLine(at, used, n);
    var after := TakeChunk(next, len, room);
    ReadLineExactly(line, at, room, n);
    DecodeTurn(line, at.s, len, used);
    ContentLenFits(len);
    ArrivesTurn(ExtentsWith(line, at.s), at, room, n);
    assert ExtentsWith(line, at.s)[1..] == ExtentsWith(line, at.s[used..][len + 2..]);
    AssembleTurn(line, at, room, len, next);
    var (whole, last) := DecodeWith(line, at.s).value;
    if after.None? {
      ExactlyIs(line, at, room, Outcome(Closed, false, next), Starved, whole, at.s[last..]);
    } else {
      var (body, end) := DecodeWith(line, after.value.s).value;
      var o, a := AssembleWith(line, after.value, room), ArrivalOf(line, after.value, room);
      AgreeBehind(o, a, next.s[..len], body, after.value.s[end..]);
      assert after.value.s == at.s[used..][len + 2..] && whole == next.s[..len] + body;
      assert at.s[last..] == after.value.s[end..];
      ExactlyIs(line, at, room, Behind(next.s[..len], false, o), a, whole, at.s[last..]);
    }
  }

  /** For any way to read size lines. */
  lemma {:induction false} ChunksExactlyWith(line: LineReader, at: At, room: nat)
    requires IsReader(line) && Fits(at, room) && SizesFitWith(line, at.s) && DecodeWith(line, at.s).Some?
    ensures Exactly(line, at, room)
    decreases |at.plan|
  {
    hide AssembleWith, ReadLine, ExtentsWith, Exactly, Take, SizesFitWith;
    var n := LineRead(CountsOf(at), room);
    var Size(len, used) := line(at.s);
    if n <= 0 || at.buffered + n < used {
      CutOrStarved(line, at, room, n);
    } else if len == 0 {
      LastChunk(line, at, room, n, used);
    } else {
      var after := TakeChunk(BehindLine(at, used, n), len, room);
      if after.Some? {
        DecodeTurn(line, at.s, len, used);
        ChunksExactlyWith(line, after.value, room);
      }
      MoreChunks(line, at, room, n, used, len);
    }
  }

  /**
   * The body of a well-formed chunked stream whose sizes fit an int. It is returned, and is what the stream decodes to,
   * if and only if the chunks arrive in time; a line is split if and only if one is cut by the end of a read.
   */
  lemma {:induction false} ChunksExactly(at: At, room: nat)
    requires Fits(at, room) && SizesFit(at.s) && Decode(at.s).Some?
    ensures var (body, used) := Decode(at.s).value;
            Agree(Assemble(at, room), Arrives(Extents(at.s), CountsOf(at), room), body, at.s[used..])
  {
    LineOfIsReader();
    ChunksExactlyWith(LineOf, at, room);
  }

  /** Nothing but what decodes is returned, and no size is too large, unless a line is split. */
  ghost predicate Sound(o: Outcome, decodes: bool) {
    o.split || ((o.r.Body? ==> decodes) && o.r != Undefined)
  }

  lemma {:induction false} DecodesTurn(line: LineReader, s: seq<byte>)
    requires line(s).Size? && line(s).used + line(s).n + 2 <= |s|
    requires line(s).n == 0 || DecodeWith(line, s[line(s).used + line(s).n + 2..]).Some?
    ensures DecodeWith(line, s).Some?
  {
  }

  lemma {:induction false} NoLine(line: LineReader, at: At, room: nat)
    requires IsReader(line) && Fits(at, room) && !ReadLine(line, at, room).0.Parsed?
    ensures !AssembleWith(line, at, room).r.Body? && AssembleWith(line, at, room).r != Undefined
  {
  }

  /** For any bytes whose sizes fit as this reader reads them. */
  lemma {:induction false} OnlyDecodedWith(line: LineReader, at: At, room: nat)
    requires IsReader(line) && Fits(at, room) && SizesFitWith(line, at.s) && !ReadLine(line, at, room).2
    ensures Sound(AssembleWith(line, at, room), DecodeWith(line, at.s).Some?)
    decreases |at.plan|, 0
  {
    hide IsReader, AssembleWith, ReadLine, DecodeWith, SizesFitWith, ContentLen, Take;
    var (size, next, _) := ReadLine(line, at, room);
    if size.Parsed? {
      ParsedIsAhead(line, at, room);
      SizesTurn(line, at.s);
      var n, used := line(at.s).n, line(at.s).used;
      ContentLenFits(n);
      AssembleTurn(line, at, room, n, next);
      var after := TakeChunk(next, n, room);
      if after.Some? {
        assert after.value.s == at.s[used..][n + 2..] == at.s[used + n + 2..];
        if n == 0 {
          DecodesTurn(line, at.s);
        } else {
          MoreDecoded(line, after.value, room);
          if DecodeWith(line, after.value.s).Some? {
            DecodesTurn(line, at.s);
          }
        }
      }
    } else {
      NoLine(line, at, room);
    }
  }

  lemma {:induction false} MoreDecoded(line: LineReader, at: At, room: nat)
    requires IsReader(line) && Fits(at, room) && SizesFitWith(line, at.s)
    ensures Sound(AssembleWith(line, at, room), DecodeWith(line, at.s).Some?)
    decreases |at.plan|, 1
  {
    if ReadLine(line, at, room).2 {
      SplitIsSplit(line, at, room);
    } else {
      OnlyDecodedWith(line, at, room);
    }
  }

  lemma {:induction false} SplitIsSplit(line: LineReader, at: At, room: nat)
    requires IsReader(line) && Fits(at, room) && ReadLine(line, at, room).2
    ensures AssembleWith(line, at, room).split
  {
  }

  /** A size line that was not split is the one ahead. */
  lemma {:induction false} ParsedIsAhead(line: LineReader, at: At, room: nat)
    requires IsReader(line) && Fits(at, room) && ReadLine(line, at, room).0.Parsed? && !ReadLine(line, at, room).2
    ensures line(at.s).Size? && 0 < line(at.s).used <= |at.s|
    ensures ReadLine(line, at, room).0 == Parsed(ContentLen(line(at.s).n))
    ensures ReadLine(line, at, room).1.s == at.s[line(at.s).used..]
  {
    var known := line(at.s[..at.buffered + LineRead(CountsOf(at), room)]);
  }
}
