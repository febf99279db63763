/** yuan/stream.cc: reading and writing exactly so many bytes over a transport that splits them at will. */
module Streams {
  import opened Words

  function Least(a: nat, b: nat): nat {
    if a < b then a else b
  }

  function Rest<T>(s: seq<T>): seq<T> {
    if s == [] then [] else s[1..]
  }

  /**
   * What one call on the transport returns, of at most `max` bytes with `pending` left. The plan says how the transport
   * behaves, one entry a call: the most it takes at a time, or a result of 0 or below. At its end the connection is
   * closed.
   */
  function CallLen(pending: nat, plan: seq<int>, max: nat): (len: int)
    ensures len <= pending && len <= max
  {
    if plan == [] then 0 else if plan[0] <= 0 then plan[0] else Least(plan[0], Least(max, pending))
  }

  /**
   * What is missing after a loop of calls that wants `left` bytes, what its last call returned, and the rest of the
   * plan.
   */
  datatype Pulled = Pulled(left: nat, error: int, plan: seq<int>)

  /** Calls of at most `cap` bytes until `left` are through or one returns nothing. */
  function Pull(pending: nat, plan: seq<int>, left: nat, cap: nat): (p: Pulled)
    requires cap > 0
    ensures p.left <= left && left - p.left <= pending
    ensures p.left > 0 ==> p.error <= 0
    ensures |p.plan| <= |plan|
    decreases |plan|
  {
    if left == 0 then Pulled(0, 0, plan)
    else
      var n := CallLen(pending, plan, Least(left, cap));
      if n <= 0 then Pulled(left, n, Rest(plan)) else Pull(pending - n, plan[1..], left - n, cap)
  }

  /** A transport that gives something on every call gives everything there is. */
  lemma {:induction false} PullAll(pending: nat, plan: seq<int>, left: nat, cap: nat)
    requires cap > 0 && left <= |plan| && forall i :: 0 <= i < left ==> plan[i] > 0
    ensures Pull(pending, plan, left, cap).left == 0 <==> left <= pending
    decreases |plan|
  {
    if left > 0 && pending > 0 {
      var n := CallLen(pending, plan, Least(left, cap));
      PullAll(pending - n, plan[1..], left - n, cap);
    }
  }

  /** The receiving side of a connection: what the peer still sends, and how the transport behaves. */
  class Source {
    var pending: seq<byte>
    var plan: seq<int>

    constructor (pending: seq<byte>, plan: seq<int>)
      ensures this.pending == pending && this.plan == plan
    {
      this.pending, this.plan := pending, plan;
    }

    method Read(max: nat) returns (len: int, s: seq<byte>)
      requires max > 0
      modifies this
      ensures len == CallLen(|old(pending)|, old(plan), max) && |s| == (if len < 0 then 0 else len)
      ensures s + pending == old(pending) && pending == old(pending)[|s|..] && plan == Rest(old(plan))
    {
      len := CallLen(|pending|, plan, max);
      s := if len < 0 then [] else pending[..len];
      pending, plan := pending[|s|..], Rest(plan);
    }
  }

  /** What is still to be parsed: the buffered bytes, then those the peer has left. */
  ghost function Ahead(src: Source, data: array<byte>, offset: nat): seq<byte>
    requires offset <= data.Length
    reads src, data
  {
    data[..offset] + src.pending
  }

  /** read(data + offset, max) on a buffer: its result, and the bytes behind the first offset ones. */
  method ReadInto(src: Source, data: array<byte>, offset: nat, max: nat) returns (len: int)
    requires max > 0 && offset + max <= data.Length
    modifies src, data
    ensures len == CallLen(|old(src.pending)|, old(src.plan), max) && src.plan == Rest(old(src.plan))
    ensures len <= 0 ==> data[..] == old(data[..]) && src.pending == old(src.pending)
    ensures len > 0 ==> data[..offset + len] == old(data[..offset]) + old(src.pending)[..len]
                        && src.pending == old(src.pending)[len..]
    ensures data[offset + max..] == old(data[offset + max..])
  {
    var s;
    len, s := src.Read(max);
    forall i | 0 <= i < |s| {
      data[offset + i] := s[i];
    }
  }

  /** memmove(data, data + from, count) */
  method MoveDown(data: array<byte>, from: nat, count: nat)
    requires from + count <= data.Length
    modifies data
    ensures data[..count] == old(data[from..from + count])
  {
    forall i | 0 <= i < count {
      data[i] := data[from + i];
    }
  }

  lemma TakeMore(s: seq<byte>, m: nat, n: nat)
    requires m + n <= |s|
    ensures s[..m] + s[m..][..n] == s[..m + n] && s[m..][n..] == s[m + n..]
  {
  }

  /** The first n bytes of what was pending are behind `base` in the buffer. */
  ghost predicate Arrived(buffer: seq<byte>, base: seq<byte>, before: seq<byte>, pending: seq<byte>, n: nat) {
    n <= |before| && buffer == base + before[..n] && pending == before[n..]
  }

  /** One read behind what has arrived. */
  method ReadMore(src: Source, buffer: array<byte>, end: nat, left: nat, ghost base: seq<byte>, ghost before: seq<byte>,
                  ghost n: nat)
    returns (len: int)
    requires left > 0 && end + left <= buffer.Length && Arrived(buffer[..end], base, before, src.pending, n)
    modifies src, buffer
    ensures len == CallLen(|old(src.pending)|, old(src.plan), left) && src.plan == Rest(old(src.plan))
    ensures var m := if len < 0 then 0 else len;
            Arrived(buffer[..end + m], base, before, src.pending, n + m) && |src.pending| == |old(src.pending)| - m
    ensures buffer[end + left..] == old(buffer[end + left..])
  {
    len := ReadInto(src, buffer, end, left);
    if len > 0 {
      TakeMore(before, n, len);
    } else {
      assert buffer[..end] == old(buffer[..])[..end];
    }
  }

  /** How the loops of readFixSize and writeFixSize go for an int argument: not at all if it is negative. */
  function FixSize(pending: nat, plan: seq<int>, length: int): (p: Pulled)
    ensures length > 0 ==> p.left <= length && length - p.left <= pending && (p.left > 0 ==> p.error <= 0)
    ensures length <= 0 ==> p.left == 0
  {
    if length <= 0 then Pulled(0, 0, plan) else Pull(pending, plan, length, length)
  }

  /** One call is one turn of Pull. */
  lemma {:induction false} PullCapped(pending: nat, plan: seq<int>, left: nat, cap: nat)
    requires 0 < left && 0 < cap
    ensures var n := CallLen(pending, plan, Least(left, cap));
            Pull(pending, plan, left, cap) == if n <= 0 then Pulled(left, n, Rest(plan))
                                              else Pull(pending - n, Rest(plan), left - n, cap)
  {
  }

  lemma {:induction false} PullTurn(pending: nat, plan: seq<int>, left: nat, cap: nat)
    requires 0 < left <= cap
    ensures var n := CallLen(pending, plan, left);
            Pull(pending, plan, left, cap) == if n <= 0 then Pulled(left, n, Rest(plan))
                                              else Pull(pending - n, Rest(plan), left - n, cap)
  {
  }

  lemma {:induction false} PullDone(pending: nat, plan: seq<int>, cap: nat)
    requires cap > 0
    ensures Pull(pending, plan, 0, cap) == Pulled(0, 0, plan)
  {
  }

  lemma NothingArrived(base: seq<byte>, before: seq<byte>)
    ensures Arrived(base, base, before, before, 0)
  {
  }

  /**
   * readFixSize into buffer from position at on: the next bytes of the peer, in order, as many as arrive before a read
   * gets nothing; the result is the length if all do, and else what that read returned.
   */
  method ReadFixSize(src: Source, buffer: array<byte>, at: nat, length: int) returns (r: int)
    requires at + (if length < 0 then 0 else length) <= buffer.Length
    modifies src, buffer
    ensures length >= 0 ==> buffer[at + length..] == old(buffer[at + length..])
    ensures length <= 0 ==> r == length && buffer[..] == old(buffer[..]) && src.pending == old(src.pending)
    ensures var p := FixSize(|old(src.pending)|, old(src.plan), length);
            && r == (if p.left == 0 then length else p.error) && src.plan == p.plan
            && (length > 0 ==>
                  Arrived(buffer[..at + length - p.left], old(buffer[..at]), old(src.pending), src.pending,
                          length - p.left))
  {
    hide Pull, CallLen, Arrived;
    var leftLen, offset := length, 0;
    ghost var pulled := FixSize(|src.pending|, src.plan, length);
    NothingArrived(buffer[..at], src.pending);
    while leftLen > 0
      invariant 0 <= offset && offset + leftLen == length && (if length >= 0 then leftLen >= 0 else offset == 0)
      invariant length >= 0 ==> Arrived(buffer[..at + offset], old(buffer[..at]), old(src.pending), src.pending, offset)
      invariant length >= 0 ==> buffer[at + length..] == old(buffer[at + length..])
      invariant length > 0 ==> pulled == Pull(|src.pending|, src.plan, leftLen, length)
      invariant length <= 0 ==>
                  src.plan == old(src.plan) && buffer[..] == old(buffer[..]) && src.pending == old(src.pending)
    {
      PullTurn(|src.pending|, src.plan, leftLen, length);
      var len := ReadMore(src, buffer, at + offset, leftLen, old(buffer[..at]), old(src.pending), offset);
      if len <= 0 {
        return len;
      }
      leftLen := leftLen - len;
      offset := offset + len;
    }
    if length > 0 {
      PullDone(|src.pending|, src.plan, length);
    }
    r := length;
  }

  /** The sending side: what the peer has been sent, and how the transport behaves. */
  class Sink {
    var sent: seq<byte>
    var plan: seq<int>

    constructor (plan: seq<int>)
      ensures sent == [] && this.plan == plan
    {
      sent, this.plan := [], plan;
    }

    method Write(s: seq<byte>) returns (len: int)
      modifies this
      ensures len == CallLen(|s|, old(plan), |s|) && plan == Rest(old(plan))
      ensures sent == old(sent) + if len < 0 then [] else s[..len]
    {
      len := CallLen(|s|, plan, |s|);
      sent, plan := sent + if len < 0 then [] else s[..len], Rest(plan);
    }
  }

  /** writeFixSize: the bytes in order, as many as go out before a write takes nothing, and a result as for reading. */
  method WriteFixSize(sink: Sink, buffer: seq<byte>, length: int) returns (r: int)
    requires length <= |buffer|
    modifies sink
    ensures length <= 0 ==> r == length && sink.sent == old(sink.sent)
    ensures length > 0 ==>
              var p := FixSize(length, old(sink.plan), length);
              && r == (if p.left == 0 then length else p.error) && sink.plan == p.plan
              && sink.sent == old(sink.sent) + buffer[..length - p.left]
  {
    hide Pull, CallLen;
    var leftLen, offset := length, 0;
    while leftLen > 0
      invariant 0 <= offset && offset + leftLen == length && (if length >= 0 then leftLen >= 0 else offset == 0)
      invariant offset <= |buffer| && sink.sent == old(sink.sent) + buffer[..offset]
      invariant length > 0 ==> Pull(length, old(sink.plan), length, length) == Pull(leftLen, sink.plan, leftLen, length)
    {
      PullTurn(leftLen, sink.plan, leftLen, length);
      var len := sink.Write(buffer[offset..offset + leftLen]);
      if len <= 0 {
        return len;
      }
      assert buffer[..offset + len] == buffer[..offset] + buffer[offset..offset + leftLen][..len];
      leftLen := leftLen - len;
      offset := offset + len;
    }
    if length > 0 {
      PullDone(0, sink.plan, length);
    }
    r := length;
  }
}
