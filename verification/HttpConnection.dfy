/** yuan/http/http_connection.cc: assembling the body of a response from whatever the transport delivers. */
module HttpConnections {
  import opened ChunkLines
  import opened ChunkRuns
  import opened HttpSessions
  import opened Options
  import opened Streams
  import opened Words

  /** Where the loops stand. */
  ghost function Here(src: Source, data: array<byte>, offset: nat): At
    requires offset <= data.Length
    reads src, data
  {
    At(Ahead(src, data, offset), offset, src.plan)
  }

  /** What a read leaves of the stream, and of that what the parser leaves. */
  lemma ReadAndParsed(buffered: seq<byte>, pending: seq<byte>, n: nat, used: nat)
    requires n <= |pending| && used <= |buffered| + n
    ensures (buffered + pending)[..|buffered| + n] == buffered + pending[..n]
    ensures (buffered + pending)[used..] == (buffered + pending[..n])[used..] + pending[n..]
  {
  }

  /** HttpResponseParser::execute on a size line: the machine from its start, and what it does not take moved down. */
  method Execute(data: array<byte>, len: nat) returns (cs: LineState, size: nat, parsedLen: nat)
    requires len <= data.Length
    modifies data
    ensures parsedLen <= len && data[..len - parsedLen] == old(data[..len])[parsedLen..]
    ensures match LineOf(old(data[..len]))
            case Size(n, used) => cs == Final && size == n && parsedLen == used
            case Bad => cs == Error
            case Elsewhere => cs == Response
            case Incomplete => cs != Final && cs != Error && cs != Response && parsedLen == len
  {
    cs, size, parsedLen := ExecuteLine(data[..len]);
    MoveDown(data, parsedLen, len - parsedLen);
  }

  /** One turn of the inner loop: read behind what is in the buffer, parse, move the rest down. */
  method ReadOnce(src: Source, data: array<byte>, start: nat) returns (r: SizeLine, offset: nat)
    requires start < data.Length && IsReader(LineOf)
    modifies src, data
    ensures r == LineTurn(LineOf, old(Here(src, data, start)), data.Length).0
    ensures r.Parsed? || r.Unfinished? ==>
              offset < data.Length && Here(src, data, offset)
                  == LineTurn(LineOf, old(Here(src, data, start)), data.Length).1
  {
    hide IsReader, LineTurn, LineOf, ContentLen, CallLen;
    ghost var buffered, pending, at := data[..start], src.pending, Here(src, data, start);
    var len := ReadInto(src, data, start, data.Length - start);
    offset := start;
    if len <= 0 {
      LineTurnIs(LineOf, at, data.Length, len, Bad);
      return Failed, offset;
    }
    ghost var found := LineOf(at.s[..start + len]);
    LineTurnIs(LineOf, at, data.Length, len, found);
    len := len + offset;
    assert data[..len] == at.s[..len];
    var cs, size, parsedLen := Execute(data, len);
    if cs == Error {
      return Failed, offset;
    }
    ReadAndParsed(buffered, pending, len - start, parsedLen);
    offset := len - parsedLen;
    assert Ahead(src, data, offset) == at.s[parsedLen..];
    if cs == Response {
      return Other, offset;
    }
    if offset == data.Length {
      return Failed, offset;
    }
    if cs != Final {
      return Unfinished, offset;
    }
    r := Parsed(ContentLen(size));
  }

  /** The inner loop: reads until a chunk-size line is parsed, also if one is in the buffer already. */
  method ReadSizeLine(src: Source, data: array<byte>, start: nat) returns (r: SizeLine, offset: nat)
    requires start < data.Length && IsReader(LineOf)
    modifies src, data
    ensures r == ReadLine(LineOf, old(Here(src, data, start)), data.Length).0
    ensures r.Parsed? ==>
              offset < data.Length && Here(src, data, offset)
                  == ReadLine(LineOf, old(Here(src, data, start)), data.Length).1
  {
    ghost var at := Here(src, data, start);
    r, offset := ReadOnce(src, data, start);
    while r.Unfinished?
      invariant r.Parsed? || r.Unfinished? ==> offset < data.Length
      invariant if r.Unfinished? then
                  && ReadLine(LineOf, at, data.Length).0 == ReadLine(LineOf, Here(src, data, offset), data.Length).0
                  && ReadLine(LineOf, at, data.Length).1 == ReadLine(LineOf, Here(src, data, offset), data.Length).1
                else
                  && r == ReadLine(LineOf, at, data.Length).0
                  && (r.Parsed? ==> Here(src, data, offset) == ReadLine(LineOf, at, data.Length).1)
      decreases r.Unfinished?, |src.plan|
    {
      r, offset := ReadOnce(src, data, offset);
    }
  }

  /**
   * The chunk itself and the two bytes behind it: out of the buffer if they are all there, else what is there and
   * the rest from the peer, with the last two bytes cut off.
   */
  method ReadChunk(src: Source, data: array<byte>, start: nat, chunkLen: nat)
    returns (ok: bool, piece: seq<byte>, offset: nat)
    requires start < data.Length
    modifies src, data
    ensures ok <==> TakeChunk(old(Here(src, data, start)), chunkLen, data.Length).Some?
    ensures ok ==> offset < data.Length
                   && Some(Here(src, data, offset)) == TakeChunk(old(Here(src, data, start)), chunkLen, data.Length)
                   && piece == old(Ahead(src, data, start))[..chunkLen]
  {
    ghost var ahead := Ahead(src, data, start);
    var total := chunkLen + 2;
    offset := start;
    if total <= offset {
      piece := data[..chunkLen];
      MoveDown(data, total, offset - total);
      offset := offset - total;
      assert ahead[total..] == data[..offset] + src.pending;
      return true, piece, offset;
    }
    ok, piece := ReadRest(src, data, data[..offset], total - offset, ahead);
    offset := 0;
    if ok {
      assert ahead[total..] == src.pending == Ahead(src, data, 0);
      piece := piece[..|piece| - 2];
    }
  }

  /** The innermost loop: so many more bytes behind the first part of a chunk. */
  method ReadRest(src: Source, data: array<byte>, first: seq<byte>, total: nat, ghost ahead: seq<byte>)
    returns (ok: bool, piece: seq<byte>)
    requires data.Length > 0 && first + src.pending == ahead
    modifies src, data
    ensures ok <==> Pull(|old(src.pending)|, old(src.plan), total, data.Length).left == 0
    ensures ok ==> |piece| == |first| + total && piece + src.pending == ahead
    ensures ok ==> src.plan == Pull(|old(src.pending)|, old(src.plan), total, data.Length).plan
  {
    hide Pull, CallLen;
    var left := total;
    ghost var pulled := Pull(|src.pending|, src.plan, total, data.Length);
    piece := first;
    while left > 0
      invariant 0 <= left && |piece| + left == |first| + total && piece + src.pending == ahead
      invariant pulled == Pull(|src.pending|, src.plan, left, data.Length)
    {
      ghost var pending := src.pending;
      assert data[..0] == [];
      PullCapped(|pending|, src.plan, left, data.Length);
      var len := ReadInto(src, data, 0, if left > data.Length then data.Length else left);
      if len <= 0 {
        return false, piece;
      }
      assert data[..len] == pending[..len];
      TakeMore(pending, 0, len);
      piece := piece + data[..len];
      left := left - len;
    }
    PullDone(|src.pending|, src.plan, data.Length);
    ok := true;
  }

  lemma BehindMore(body: seq<byte>, piece: seq<byte>, split: bool, more: bool, o: Outcome)
    ensures Behind(body, split, Behind(piece, more, o)) == Behind(body + piece, split || more, o)
  {
    if o.r.Body? {
      assert body + (piece + o.r.body) == (body + piece) + o.r.body;
    }
  }

  /**
   * The body of a chunked response, with `start` bytes of it in the buffer behind the header. What is returned, and
   * whether anything is, depends on the bytes, on how many are buffered, and on the plan of the transport alone.
   */
  method RecvChunks(src: Source, data: array<byte>, start: nat) returns (r: Received, offset: nat)
    requires start < data.Length
    modifies src, data
    ensures r == Assemble(old(Here(src, data, start)), data.Length).r
    ensures r.Body? ==>
              offset < data.Length && Here(src, data, offset) == Assemble(old(Here(src, data, start)), data.Length).at
  {
    hide ReadLine, LineOf, TakeChunk, IsReader;
    LineOfIsReader();
    ghost var outcome := Assemble(Here(src, data, start), data.Length);
    ghost var split := false;
    var body := [];
    offset := start;
    while true
      invariant offset < data.Length
      invariant outcome == Behind(body, split, AssembleWith(LineOf, Here(src, data, offset), data.Length))
      decreases |src.plan|
    {
      ghost var at := Here(src, data, offset);
      ghost var cut := ReadLine(LineOf, at, data.Length).2;
      var line;
      line, offset := ReadSizeLine(src, data, offset);
      if line.Failed? {
        return Closed, offset;
      }
      if line.Other? {
        return Unmodelled, offset;
      }
      var chunkLen := line.contentLen;
      if chunkLen < 0 || chunkLen + 2 >= INT_LIMIT {
        return Undefined, offset;
      }
      var ok, piece;
      ok, piece, offset := ReadChunk(src, data, offset, chunkLen);
      if !ok {
        return Closed, offset;
      }
      if chunkLen <= 0 {
        assert body + piece == body;
        return Body(body + piece), offset;
      }
      BehindMore(body, piece, split, cut, AssembleWith(LineOf, Here(src, data, offset), data.Length));
      body, split := body + piece, split || cut;
    }
  }

  /** Behind a header that was fed in these calls: the bytes, how many are in the buffer, and the calls to come. */
  ghost function BodyAt<S>(p: Parser<S>, init: S, bufs: seq<seq<byte>>, whole: seq<byte>, plan: seq<int>): At {
    At(if |Taken(p, init, bufs)| <= |whole| then whole[|Taken(p, init, bufs)|..] else [], |Leftover(p, init, bufs)|,
       if |bufs| <= |plan| then plan[|bufs|..] else [])
  }

  /** The calls on the transport that are left behind a body of this Content-Length. */
  function BehindBody(at: At, contentLength: nat): seq<int> {
    CallsBehind(at.buffered, contentLength, if at.buffered <= |at.s| then |at.s| - at.buffered else 0, at.plan)
  }

  /** What the peer has still to send, and how, when this is ahead. */
  ghost predicate Leaves(at: At, src: Source)
    reads src
  {
    at.buffered <= |at.s| && src.pending == at.s[at.buffered..] && src.plan == at.plan
  }

  /** recvResponse behind the header. */
  method RecvBodyPart(src: Source, data: array<byte>, start: nat, chunked: bool, contentLength: nat,
                      ghost taken: seq<byte>)
    returns (r: Received)
    requires start < data.Length
    modifies src, data
    ensures chunked ==> r == Assemble(old(Here(src, data, start)), data.Length).r
    ensures !chunked ==> (r.Body? || r.Closed?)
                         && (r.Body? <==> MessageArrives(start, contentLength, |old(src.pending)|, old(src.plan)))
    ensures !chunked && r.Body? ==>
              IsMessage(taken + old(Ahead(src, data, start)), |taken|, start, CastToLong(contentLength), r.body,
                        src.pending)
    ensures chunked && r.Body? ==> Leaves(Assemble(old(Here(src, data, start)), data.Length).at, src)
    ensures !chunked ==> src.plan == CallsBehind(start, contentLength, |old(src.pending)|, old(src.plan))
  {
    if chunked {
      var end;
      r, end := RecvChunks(src, data, start);
    } else {
      var ok, body := FinishMessage(src, data, start, contentLength, taken);
      r := if ok then Body(body) else Closed;
    }
  }

  /**
   * recvResponse: the header, and the body in one of its two framings. chunked and contentLength are what the parser's
   * state says of the headers.
   */
  method RecvResponse<S(!new)>(src: Source, data: array<byte>, p: Parser<S>, init: S, chunked: S -> bool,
                               contentLength: S -> nat)
    returns (r: Received, state: S, ghost bufs: seq<seq<byte>>)
    requires Sane(p) && data.Length > 0
    modifies src, data
    ensures !HeaderDone(p, init, bufs, data.Length) ==>
              r == Closed && (HeaderStarves(p, init, bufs, old(src.pending), old(src.plan), data.Length)
                              || HeaderFails(p, init, bufs, data.Length))
    ensures HeaderDone(p, init, bufs, data.Length) ==>
              state == StateAfter(p, init, bufs) && Taken(p, init, bufs) <= old(src.pending)
              && Fits(BodyAt(p, init, bufs, old(src.pending), old(src.plan)), data.Length)
    ensures HeaderDone(p, init, bufs, data.Length) && chunked(state) ==>
              r == Assemble(BodyAt(p, init, bufs, old(src.pending), old(src.plan)), data.Length).r
    ensures r.Body? && chunked(state) ==>
              Leaves(Assemble(BodyAt(p, init, bufs, old(src.pending), old(src.plan)), data.Length).at, src)
    ensures HeaderDone(p, init, bufs, data.Length) && !chunked(state) ==>
              && (r.Body? || r.Closed?)
              && (r.Body? <==> RestArrives(|Taken(p, init, bufs)|, |Leftover(p, init, bufs)|, |bufs|,
                                           contentLength(state), |old(src.pending)|, old(src.plan)))
              && (r.Body? ==> IsMessage(old(src.pending), |Taken(p, init, bufs)|, |Leftover(p, init, bufs)|,
                                        CastToLong(contentLength(state)), r.body, src.pending))
              && src.plan == BehindBody(BodyAt(p, init, bufs, old(src.pending), old(src.plan)), contentLength(state))
    ensures r.Body? && !chunked(state) && 0 < contentLength(state) < INT_LIMIT ==>
              var header, n := |Taken(p, init, bufs)|, contentLength(state);
              header + n <= |old(src.pending)| && r.body == old(src.pending)[header..header + n]
    ensures r.Body? && !chunked(state) && (contentLength(state) == 0 || LONG_LIMIT <= contentLength(state) < U64) ==>
              r.body == []
  {
    hide Taken, LastStep, StateAfter, Fed, Leftover, Assemble, IsMessage;
    ghost var whole, plan := src.pending, src.plan;
    var ok, offset;
    ok, offset, state, bufs := RecvHeader(src, data, p, init);
    if !ok {
      return Closed, state, bufs;
    }
    FeedingSizes(p, init, bufs, state, src, data, offset, whole, plan);
    BodyIsHere(p, init, bufs, Here(src, data, offset), whole, plan);
    r := RecvBodyPart(src, data, offset, chunked(state), contentLength(state), Taken(p, init, bufs));
    if r.Body? && !chunked(state) {
      MessageOfLength(whole, |Taken(p, init, bufs)|, offset, contentLength(state), r.body, src.pending);
    }
  }

  lemma {:induction false} BodyIsHere<S>(p: Parser<S>, init: S, bufs: seq<seq<byte>>, at: At, whole: seq<byte>,
                                         plan: seq<int>)
    requires Taken(p, init, bufs) + at.s == whole && at.buffered == |Leftover(p, init, bufs)|
    requires |bufs| <= |plan| && at.plan == plan[|bufs|..]
    ensures BodyAt(p, init, bufs, whole, plan) == at
  {
    assert whole[|Taken(p, init, bufs)|..] == at.s;
  }
}
