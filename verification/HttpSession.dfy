/**
 * yuan/http/http_session.cc, and the Content-Length part of yuan/http/http_connection.cc: the header loop around an
 * abstract parser, and a body that is partly in the buffer.
 */
module HttpSessions {
  import opened Streams
  import opened Words

  /** The parser as recvRequest uses it: what one execute call takes of the buffer, and how it ends. */
  datatype Step = Step(parsed: nat, error: bool, finished: bool)

  /** The generated machine: from its state and the bytes in the buffer to its next state and the outcome. */
  type Parser<!S> = (S, seq<byte>) -> (S, Step)

  /** A parser that takes no more than there is. */
  ghost predicate Sane<S(!new)>(p: Parser<S>) {
    forall s, bytes {:trigger p(s, bytes)} :: p(s, bytes).1.parsed <= |bytes|
  }

  /** The machine's state after it has been given these buffers, one call each. */
  function StateAfter<S>(p: Parser<S>, init: S, bufs: seq<seq<byte>>): S {
    if bufs == [] then init else p(StateAfter(p, init, bufs[..|bufs| - 1]), bufs[|bufs| - 1]).0
  }

  /** The outcome of its last call. */
  function LastStep<S>(p: Parser<S>, init: S, bufs: seq<seq<byte>>): Step
    requires bufs != []
  {
    p(StateAfter(p, init, bufs[..|bufs| - 1]), bufs[|bufs| - 1]).1
  }

  /**
   * The calls the header loop makes: each buffer is what the call before left over and at least one new byte, and
   * only the last call may end the header or fail.
   */
  ghost predicate Fed<S>(p: Parser<S>, init: S, bufs: seq<seq<byte>>) {
    bufs == [] ||
    var front, n := bufs[..|bufs| - 1], |bufs| - 1;
    && Fed(p, init, front)
    && Leftover(p, init, front) <= bufs[n] && |Leftover(p, init, front)| < |bufs[n]|
    && (front != [] ==> !LastStep(p, init, front).finished && !LastStep(p, init, front).error)
  }

  /** What the last call did not take. */
  function Leftover<S>(p: Parser<S>, init: S, bufs: seq<seq<byte>>): seq<byte> {
    if bufs == [] then []
    else
      var step := LastStep(p, init, bufs);
      if step.parsed <= |bufs[|bufs| - 1]| then bufs[|bufs| - 1][step.parsed..] else []
  }

  /** What all calls together took. */
  function Taken<S>(p: Parser<S>, init: S, bufs: seq<seq<byte>>): seq<byte> {
    if bufs == [] then []
    else
      var step := LastStep(p, init, bufs);
      Taken(p, init, bufs[..|bufs| - 1])
      + if step.parsed <= |bufs[|bufs| - 1]| then bufs[|bufs| - 1][..step.parsed] else bufs[|bufs| - 1]
  }

  lemma {:induction false} FedMore<S>(p: Parser<S>, init: S, bufs: seq<seq<byte>>, buf: seq<byte>)
    requires Fed(p, init, bufs) && Leftover(p, init, bufs) <= buf && |Leftover(p, init, bufs)| < |buf|
    requires bufs != [] ==> !LastStep(p, init, bufs).finished && !LastStep(p, init, bufs).error
    requires p(StateAfter(p, init, bufs), buf).1.parsed <= |buf|
    ensures var more, parsed := bufs + [buf], p(StateAfter(p, init, bufs), buf).1.parsed;
            && Fed(p, init, more) && LastStep(p, init, more) == p(StateAfter(p, init, bufs), buf).1
            && StateAfter(p, init, more) == p(StateAfter(p, init, bufs), buf).0
            && Leftover(p, init, more) == buf[parsed..] && Taken(p, init, more) == Taken(p, init, bufs) + buf[..parsed]
  {
    assert (bufs + [buf])[..|bufs|] == bufs;
  }

  /**
   * Where the header loop stands: the parser has been fed these buffers, one read each; the buffer holds what is left
   * over; and that is how far it is in the bytes of the peer and the plan.
   */
  ghost predicate Feeding<S>(p: Parser<S>, init: S, bufs: seq<seq<byte>>, state: S, src: Source, data: array<byte>,
                             offset: nat, whole: seq<byte>, plan: seq<int>)
    reads src, data
  {
    && offset <= data.Length && Fed(p, init, bufs) && state == StateAfter(p, init, bufs)
    && data[..offset] == Leftover(p, init, bufs)
    && Taken(p, init, bufs) + Ahead(src, data, offset) == whole
    && |bufs| <= |plan| && src.plan == plan[|bufs|..]
  }

  /** One more call, with what was left over and the new bytes in the buffer. */
  lemma {:induction false} FeedingMore<S>(p: Parser<S>, init: S, bufs: seq<seq<byte>>, buf: seq<byte>,
                                          ahead: seq<byte>, pending: seq<byte>, whole: seq<byte>)
    requires Fed(p, init, bufs) && Leftover(p, init, bufs) <= buf && |Leftover(p, init, bufs)| < |buf|
    requires Unfinished(p, init, bufs)
    requires buf + pending == ahead && Taken(p, init, bufs) + ahead == whole
    requires p(StateAfter(p, init, bufs), buf).1.parsed <= |buf|
    ensures var more, result := bufs + [buf], p(StateAfter(p, init, bufs), buf);
            && Fed(p, init, more) && StateAfter(p, init, more) == result.0 && LastStep(p, init, more) == result.1
            && Leftover(p, init, more) == buf[result.1.parsed..]
            && Taken(p, init, more) + (buf[result.1.parsed..] + pending) == whole
  {
    FedMore(p, init, bufs, buf);
    TakenMore(Taken(p, init, bufs), buf, pending, p(StateAfter(p, init, bufs), buf).1.parsed);
  }

  /** The last call neither failed nor ended the header. */
  ghost predicate Unfinished<S>(p: Parser<S>, init: S, bufs: seq<seq<byte>>) {
    bufs != [] ==> !LastStep(p, init, bufs).finished && !LastStep(p, init, bufs).error
  }

  lemma {:induction false} FeedingSizes<S>(p: Parser<S>, init: S, bufs: seq<seq<byte>>, state: S, src: Source,
                                           data: array<byte>, offset: nat, whole: seq<byte>, plan: seq<int>)
    requires Feeding(p, init, bufs, state, src, data, offset, whole, plan)
    ensures offset == |Leftover(p, init, bufs)| && Taken(p, init, bufs) <= whole
    ensures |src.pending| == |whole| - |Taken(p, init, bufs)| - |Leftover(p, init, bufs)|
  {
  }

  /** HttpRequestParser::execute: parse the first len bytes of the buffer and move what is not taken to its start. */
  method Execute<S(!new)>(data: array<byte>, p: Parser<S>, state: S, len: nat) returns (step: Step, state': S)
    requires Sane(p) && len <= data.Length
    modifies data
    ensures (state', step) == p(state, old(data[..len])) && step.parsed <= len
    ensures data[..len - step.parsed] == old(data[..len])[step.parsed..]
  {
    var result := p(state, data[..len]);
    step, state' := result.1, result.0;
    MoveDown(data, step.parsed, len - step.parsed);
  }

  /** One turn: read behind what is left, parse, move the rest down. Nothing happens if the read gets nothing. */
  method Feed<S(!new)>(src: Source, data: array<byte>, p: Parser<S>, init: S, state: S, start: nat,
                       ghost bufs: seq<seq<byte>>, ghost whole: seq<byte>, ghost plan: seq<int>)
    returns (got: bool, step: Step, state': S, offset: nat, ghost bytes: seq<byte>)
    requires Sane(p) && Feeding(p, init, bufs, state, src, data, start, whole, plan) && start < data.Length
    requires Unfinished(p, init, bufs)
    modifies src, data
    ensures got <==> CallLen(|old(src.pending)|, old(src.plan), data.Length - start) > 0
    ensures got ==> |src.pending| < |old(src.pending)| && step == LastStep(p, init, bufs + [bytes])
    ensures got ==> Feeding(p, init, bufs + [bytes], state', src, data, offset, whole, plan)
  {
    hide Taken, LastStep, StateAfter, Fed, Leftover;
    step, state', offset, bytes := Step(0, false, false), state, start, [];
    ghost var ahead := Ahead(src, data, offset);
    var len := ReadInto(src, data, offset, data.Length - offset);
    got := len > 0;
    if got {
      len := len + offset;
      bytes := data[..len];
      assert bytes[..offset] == Leftover(p, init, bufs);
      assert ahead == bytes + src.pending;
      FeedingMore(p, init, bufs, bytes, ahead, src.pending, whole);
      step, state' := Execute(data, p, state, len);
      offset := len - step.parsed;
    }
  }

  /**
   * The header loop, until the parser is done. The parser sees every byte of the peer in order; what it took and what
   * is ahead are what the peer sent. The loop gives up exactly when a read gets nothing, the parser fails, or the
   * buffer is full of what it did not take.
   */
  method RecvHeader<S(!new)>(src: Source, data: array<byte>, p: Parser<S>, init: S)
    returns (ok: bool, offset: nat, state: S, ghost bufs: seq<seq<byte>>)
    requires Sane(p) && data.Length > 0
    modifies src, data
    ensures ok ==> offset < data.Length
                   && Feeding(p, init, bufs, state, src, data, offset, old(src.pending), old(src.plan))
    ensures ok <==> HeaderDone(p, init, bufs, data.Length)
    ensures !ok ==> HeaderStarves(p, init, bufs, old(src.pending), old(src.plan), data.Length)
                    || HeaderFails(p, init, bufs, data.Length)
  {
    offset, state, bufs := 0, init, [];
    ghost var whole, plan := src.pending, src.plan;
    assert Ahead(src, data, 0) == src.pending;
    while true
      invariant offset < data.Length && Feeding(p, init, bufs, state, src, data, offset, whole, plan)
      invariant Unfinished(p, init, bufs)
      decreases |src.pending|
    {
      FeedingSizes(p, init, bufs, state, src, data, offset, whole, plan);
      var got, step, next;
      ghost var bytes;
      got, step, next, offset, bytes := Feed(src, data, p, init, state, offset, bufs, whole, plan);
      if !got {
        return false, offset, state, bufs;
      }
      state, bufs := next, bufs + [bytes];
      if step.error {
        return false, offset, state, bufs;
      }
      if offset == data.Length {
        return false, offset, state, bufs;
      }
      if step.finished {
        return true, offset, state, bufs;
      }
    }
  }

  /** The last of these calls ended the header, with room left in the buffer. */
  ghost predicate HeaderDone<S>(p: Parser<S>, init: S, bufs: seq<seq<byte>>, room: nat) {
    && bufs != [] && Fed(p, init, bufs) && LastStep(p, init, bufs).finished && !LastStep(p, init, bufs).error
    && |Leftover(p, init, bufs)| < room
  }

  /** The parser does not accept the header, or a buffer of this size is full of what it does not take. */
  ghost predicate HeaderFails<S>(p: Parser<S>, init: S, bufs: seq<seq<byte>>, room: nat) {
    bufs != [] && Fed(p, init, bufs) && (LastStep(p, init, bufs).error || |Leftover(p, init, bufs)| == room)
  }

  /** Behind these calls the header is not done, and the read for the next one gets nothing. */
  ghost predicate HeaderStarves<S>(p: Parser<S>, init: S, bufs: seq<seq<byte>>, whole: seq<byte>, plan: seq<int>,
                                   room: nat) {
    var taken, left := |Taken(p, init, bufs)|, |Leftover(p, init, bufs)|;
    && Fed(p, init, bufs) && Unfinished(p, init, bufs) && taken + left <= |whole| && |bufs| <= |plan| && left < room
    && CallLen(|whole| - taken - left, plan[|bufs|..], room - left) <= 0
  }

  lemma TakenMore(taken: seq<byte>, bytes: seq<byte>, rest: seq<byte>, parsed: nat)
    requires parsed <= |bytes|
    ensures taken + bytes[..parsed] + (bytes[parsed..] + rest) == taken + (bytes + rest)
  {
  }

  /**
   * How much of a body of bodyLen bytes is filled: the part in the buffer and what readFixSize is asked for, an int.
   */
  function Filled(offset: nat, bodyLen: nat): int {
    if bodyLen <= offset then bodyLen else offset + CastToInt(bodyLen - offset)
  }

  /** It is the whole body exactly when the rest fits an int. */
  lemma FilledIsAll(offset: nat, bodyLen: nat)
    ensures Filled(offset, bodyLen) == bodyLen <==> bodyLen - offset < INT_LIMIT
    ensures Filled(offset, bodyLen) <= bodyLen
  {
    if bodyLen > offset {
      DivModDef(bodyLen - offset, U32);
      if bodyLen - offset < U32 {
        SmallMod(bodyLen - offset, U32);
      }
    }
  }

  /** How many bytes behind the buffered ones are read for the body. */
  function Missing(offset: nat, bodyLen: nat): nat {
    if Filled(offset, bodyLen) <= offset then 0 else Filled(offset, bodyLen) - offset
  }

  /** What is missing of the body is nothing, or a positive int, and that many bytes arrive. */
  predicate BodyArrives(offset: nat, bodyLen: nat, pending: nat, plan: seq<int>) {
    bodyLen <= offset || (Filled(offset, bodyLen) > offset
                          && FixSize(pending, plan, Missing(offset, bodyLen)).left == 0)
  }

  /** The calls on the transport that are left for what is behind the body. */
  function CallsBehindBody(offset: nat, bodyLen: nat, pending: nat, plan: seq<int>): seq<int> {
    if bodyLen <= offset then plan else FixSize(pending, plan, CastToInt(bodyLen - offset)).plan
  }

  /** All the buffered bytes and so many more: the first bytes ahead. */
  lemma BodyIsAhead(buffered: seq<byte>, before: seq<byte>, pending: seq<byte>, have: nat, rest: nat, body: seq<byte>)
    requires have == |buffered| && have + rest <= |body|
    requires Arrived(body[..have + rest], buffered, before, pending, rest)
    ensures have + rest <= |buffered + before| && body[..have + rest] == (buffered + before)[..have + rest]
    ensures pending == before[rest..]
  {
    assert (buffered + before)[..have + rest] == buffered + before[..rest];
  }

  lemma StaysBlank(before: seq<byte>, after: seq<byte>, k: nat)
    requires |before| == |after| && k <= |before| && before[k..] == after[k..]
    requires forall i :: k <= i < |before| ==> before[i] == 0
    ensures forall i :: k <= i < |after| ==> after[i] == 0
  {
    forall i | k <= i < |after|
      ensures after[i] == 0
    {
      assert after[i] == after[k..][i - k] == before[i];
    }
  }

  /**
   * The body of bodyLen > 0 bytes: what the buffer has of it, and the rest by readFixSize. Whatever the buffer holds
   * and however the transport splits the rest, a returned body starts with the first Filled bytes ahead, and the
   * others are zero.
   */
  method RecvBody(src: Source, data: array<byte>, offset: nat, bodyLen: nat) returns (ok: bool, body: seq<byte>)
    requires offset <= data.Length && bodyLen > 0
    modifies src, data
    ensures ok ==> |body| == bodyLen && 0 <= Filled(offset, bodyLen) <= |old(Ahead(src, data, offset))|
    ensures ok ==> body[..Filled(offset, bodyLen)] == old(Ahead(src, data, offset))[..Filled(offset, bodyLen)]
    ensures ok ==> forall i :: Filled(offset, bodyLen) <= i < bodyLen ==> body[i] == 0
    ensures ok ==> src.pending == old(src.pending)[Missing(offset, bodyLen)..]
    ensures src.plan == CallsBehindBody(offset, bodyLen, |old(src.pending)|, old(src.plan))
    ensures ok <==> BodyArrives(offset, bodyLen, |old(src.pending)|, old(src.plan))
  {
    hide Pull, CallLen, CastToInt, Arrived, FixSize;
    ghost var ahead := Ahead(src, data, offset);
    FilledIsAll(offset, bodyLen);
    var have := Least(bodyLen, offset);
    if bodyLen <= have {
      body := data[..have];
      assert ahead[..have] == data[..have];
      return true, body;
    }
    var room := new byte[bodyLen](_ => 0);
    forall i | 0 <= i < have {
      room[i] := data[i];
    }
    assert room[..have] == data[..have] == ahead[..have];
    ghost var blank := room[..];
    var rest := CastToInt(bodyLen - have);
    var r := ReadFixSize(src, room, have, rest);
    if r <= 0 {
      return false, [];
    }
    body := room[..];
    BodyIsAhead(data[..offset], old(src.pending), src.pending, have, rest, body);
    StaysBlank(blank, body, have + rest);
    ok := true;
  }

  /** With a Content-Length whose missing part fits an int, a returned body is exactly that many bytes ahead. */
  method RecvExactBody(src: Source, data: array<byte>, offset: nat, bodyLen: nat) returns (ok: bool, body: seq<byte>)
    requires offset <= data.Length && bodyLen > 0 && bodyLen - offset < INT_LIMIT
    modifies src, data
    ensures ok ==> bodyLen <= |old(Ahead(src, data, offset))| && body == old(Ahead(src, data, offset))[..bodyLen]
    ensures ok ==> src.pending == if bodyLen <= offset then old(src.pending) else old(src.pending)[bodyLen - offset..]
    ensures src.plan == CallsBehindBody(offset, bodyLen, |old(src.pending)|, old(src.plan))
    ensures ok
      <==> bodyLen <= offset || Pull(|old(src.pending)|, old(src.plan), bodyLen - offset, bodyLen - offset).left == 0
  {
    FilledIsAll(offset, bodyLen);
    ok, body := RecvBody(src, data, offset, bodyLen);
  }

  /** A whole message: behind the header, bodyLen bytes of body, of which the buffer had some when the header ended. */
  ghost predicate IsMessage(whole: seq<byte>, header: nat, buffered: nat, bodyLen: int, body: seq<byte>,
                            left: seq<byte>) {
    && header + buffered <= |whole|
    && (bodyLen <= 0 ==> body == [] && left == whole[header + buffered..])
    && (bodyLen > 0 ==>
          var filled := Filled(buffered, bodyLen);
          && |body| == bodyLen && 0 <= filled <= |whole| - header && body[..filled] == whole[header..header + filled]
          && (forall i :: filled <= i < bodyLen ==> body[i] == 0)
          && left == whole[header + if filled <= buffered then buffered else filled..])
  }

  /**
   * If the missing part fits an int, the body is exactly the bytes behind the header. The next message starts where
   * this one ends exactly if the buffer held nothing of it: the rest of the buffer is dropped.
   */
  lemma MessageIsExact(whole: seq<byte>, header: nat, buffered: nat, bodyLen: nat, body: seq<byte>, left: seq<byte>)
    requires IsMessage(whole, header, buffered, bodyLen, body, left) && bodyLen - buffered < INT_LIMIT
    ensures header + bodyLen <= |whole| && body == whole[header..header + bodyLen]
    ensures left == whole[header + bodyLen..] <==> buffered <= bodyLen
  {
    FilledIsAll(buffered, bodyLen);
  }

  /** Two messages of one byte behind a header of one, and the first read gets all: the second body is lost. */
  lemma NextMessageIsLost(body: seq<byte>, left: seq<byte>)
    requires IsMessage([71, 65, 66], 1, 2, 1, body, left)
    ensures body == [65] && left == [] != [71, 65, 66][2..]
  {
    MessageIsExact([71, 65, 66], 1, 2, 1, body, left);
  }

  lemma MessageParts(taken: seq<byte>, ahead: seq<byte>, whole: seq<byte>, buffered: seq<byte>, pending: seq<byte>,
                     k: nat, m: nat)
    requires taken + ahead == whole && ahead == buffered + pending && k <= |ahead| && m <= |pending|
    ensures whole[|taken|..|taken| + k] == ahead[..k] && whole[|taken| + |buffered| + m..] == pending[m..]
  {
  }

  /** The same behind a message with this Content-Length. */
  function CallsBehind(offset: nat, contentLength: nat, pending: nat, plan: seq<int>): seq<int> {
    var bodyLen := CastToLong(contentLength);
    if bodyLen <= 0 then plan else CallsBehindBody(offset, bodyLen, pending, plan)
  }

  /** From the end of the header on: the body if a length greater than 0, as an int64_t, is announced. */
  method FinishMessage(src: Source, data: array<byte>, offset: nat, contentLength: nat, ghost taken: seq<byte>)
    returns (ok: bool, body: seq<byte>)
    requires offset <= data.Length
    modifies src, data
    ensures ok ==>
              IsMessage(taken + old(Ahead(src, data, offset)), |taken|, offset, CastToLong(contentLength), body,
                        src.pending)
    ensures ok <==> MessageArrives(offset, contentLength, |old(src.pending)|, old(src.plan))
    ensures src.plan == CallsBehind(offset, contentLength, |old(src.pending)|, old(src.plan))
  {
    ghost var ahead, buffered, pending := Ahead(src, data, offset), data[..offset], src.pending;
    var bodyLen := CastToLong(contentLength);
    if bodyLen <= 0 {
      MessageParts(taken, ahead, taken + ahead, buffered, pending, 0, 0);
      return true, [];
    }
    FilledIsAll(offset, bodyLen);
    ok, body := RecvBody(src, data, offset, bodyLen);
    if ok {
      MessageParts(taken, ahead, taken + ahead, buffered, pending, Filled(offset, bodyLen), Missing(offset, bodyLen));
    }
  }

  /** By the length itself: the next so many bytes, if those not in the buffer fit an int; none from 2^63 on. */
  lemma MessageOfLength(whole: seq<byte>, header: nat, buffered: nat, n: nat, body: seq<byte>, left: seq<byte>)
    requires IsMessage(whole, header, buffered, CastToLong(n), body, left)
    ensures n == 0 || LONG_LIMIT <= n < U64 ==> body == [] && left == whole[header + buffered..]
    ensures 0 < n < LONG_LIMIT && n < buffered + INT_LIMIT ==>
              && header + n <= |whole| && body == whole[header..header + n]
              && left == whole[header + (if n < buffered then buffered else n)..]
  {
    CastToLongIs(n);
    if 0 < n < LONG_LIMIT {
      FilledIsAll(buffered, n);
    }
  }

  /** There is no body, or what the buffer lacks of it arrives. */
  predicate MessageArrives(offset: nat, contentLength: nat, pending: nat, plan: seq<int>) {
    CastToLong(contentLength) <= 0 || BodyArrives(offset, CastToLong(contentLength), pending, plan)
  }

  /** By the length itself: always without a body, and else exactly if the bytes not in the buffer come. */
  lemma LengthArrives(offset: nat, n: nat, pending: nat, plan: seq<int>)
    ensures n == 0 || LONG_LIMIT <= n < U64 ==> MessageArrives(offset, n, pending, plan)
    ensures 0 < n < LONG_LIMIT && n < offset + INT_LIMIT ==>
              (MessageArrives(offset, n, pending, plan)
               <==> n <= offset || Pull(pending, plan, n - offset, n - offset).left == 0)
  {
    CastToLongIs(n);
    if 0 < n < LONG_LIMIT {
      FilledIsAll(offset, n);
    }
  }

  /** The same behind a header of so many bytes that took so many calls and left some in the buffer. */
  predicate RestArrives(header: nat, buffered: nat, calls: nat, contentLength: nat, whole: nat, plan: seq<int>) {
    && header + buffered <= whole && calls <= |plan|
    && MessageArrives(buffered, contentLength, whole - header - buffered, plan[calls..])
  }

  /**
   * recvRequest: the header and the body of the next message of the peer. contentLength is what getContentLength
   * makes of the headers in the parser's state.
   */
  method RecvRequest<S(!new)>(src: Source, data: array<byte>, p: Parser<S>, init: S, contentLength: S -> nat)
    returns (ok: bool, state: S, body: seq<byte>, ghost bufs: seq<seq<byte>>)
    requires Sane(p) && data.Length > 0
    modifies src, data
    ensures ok && 0 < contentLength(state) < INT_LIMIT ==>
              var header, n := |Taken(p, init, bufs)|, contentLength(state);
              header + n <= |old(src.pending)| && body == old(src.pending)[header..header + n]
    ensures ok && (contentLength(state) == 0 || LONG_LIMIT <= contentLength(state) < U64) ==> body == []
    ensures ok ==> state == StateAfter(p, init, bufs) && Taken(p, init, bufs) <= old(src.pending)
                   && IsMessage(old(src.pending), |Taken(p, init, bufs)|, |Leftover(p, init, bufs)|,
                                CastToLong(contentLength(state)), body, src.pending)
    ensures ok <==> HeaderDone(p, init, bufs, data.Length)
                    && RestArrives(|Taken(p, init, bufs)|, |Leftover(p, init, bufs)|, |bufs|,
                                   contentLength(StateAfter(p, init, bufs)), |old(src.pending)|, old(src.plan))
    ensures ok ==> var header, buffered := |Taken(p, init, bufs)|, |Leftover(p, init, bufs)|;
                   src.plan == CallsBehind(buffered, contentLength(state), |old(src.pending)| - header - buffered,
                                           old(src.plan)[|bufs|..])
    ensures !HeaderDone(p, init, bufs, data.Length) ==>
              HeaderStarves(p, init, bufs, old(src.pending), old(src.plan), data.Length)
                  || HeaderFails(p, init, bufs, data.Length)
  {
    var offset;
    body := [];
    ok, offset, state, bufs := RecvHeader(src, data, p, init);
    if ok {
      FeedingSizes(p, init, bufs, state, src, data, offset, old(src.pending), old(src.plan));
      ok, body := FinishMessage(src, data, offset, contentLength(state), Taken(p, init, bufs));
      if ok {
        MessageOfLength(old(src.pending), |Taken(p, init, bufs)|, offset, contentLength(state), body, src.pending);
      }
    }
  }

  /** A Content-Length of 2^32 + 1 with an empty buffer: one byte is read and the rest of the body is zeros. */
  lemma LongBodyIsCut()
    ensures Filled(0, U32 + 1) == 1
  {
  }
}
