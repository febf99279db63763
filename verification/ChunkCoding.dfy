/** The chunked transfer coding (section 4.1 of RFC 7230): what it means, and that decoding undoes encoding. */
module ChunkCoding {
  import opened ChunkLines
  import opened Options
  import opened Words

  /** LineOf, or any other way to read a size line. */
  type LineReader = seq<byte> -> Line

  /**
   * The payload of a chunked body at the start of s and the bytes it takes; the two bytes behind a chunk are not
   * looked at.
   */
  function DecodeWith(line: LineReader, s: seq<byte>): (r: Option<(seq<byte>, nat)>)
    ensures r.Some? ==> r.value.1 <= |s|
    decreases |s|
  {
    match line(s)
    case Size(n, used) =>
      if |s| < used + n + 2 then None
      else if n == 0 then Some(([], used + 2))
      else
        var tail := DecodeWith(line, s[used + n + 2..]);
        if tail.None? then None else Some((s[used..used + n] + tail.value.0, used + n + 2 + tail.value.1))
    case _ => None
  }

  /** All chunk sizes of s, as far as it goes, fit an int together with the two bytes behind them. */
  predicate SizesFitWith(line: LineReader, s: seq<byte>)
    decreases |s|
  {
    match line(s)
    case Size(n, used) => n + 2 < INT_LIMIT && (n == 0 || |s| < used + n + 2 || SizesFitWith(line, s[used + n + 2..]))
    case _ => true
  }

  function Decode(s: seq<byte>): Option<(seq<byte>, nat)> {
    DecodeWith(LineOf, s)
  }

  predicate SizesFit(s: seq<byte>) {
    SizesFitWith(LineOf, s)
  }

  /** A chunk as the peer may send it: any size line of the payload's length, extensions included. */
  datatype Chunk = Chunk(line: seq<byte>, payload: seq<byte>)

  ghost predicate WellFormed(chunks: seq<Chunk>, last: seq<byte>) {
    && (forall i :: 0 <= i < |chunks| ==> chunks[i].payload != [] && IsSizeLine(chunks[i].line, |chunks[i].payload|))
    && IsSizeLine(last, 0)
  }

  /** chunked-body without trailers. */
  function Encode(chunks: seq<Chunk>, last: seq<byte>): seq<byte> {
    if chunks == [] then last + [CR, LF]
    else chunks[0].line + chunks[0].payload + [CR, LF] + Encode(chunks[1..], last)
  }

  function Payloads(chunks: seq<Chunk>): seq<byte> {
    if chunks == [] then [] else chunks[0].payload + Payloads(chunks[1..])
  }

  /** In front of anything, these bytes are read as a line of this size. */
  ghost predicate ReadsLine(line: LineReader, l: seq<byte>, n: nat) {
    forall more {:trigger line(l + more)} :: line(l + more) == Size(n, |l|)
  }

  ghost predicate ReadsLines(line: LineReader, chunks: seq<Chunk>, last: seq<byte>) {
    && (forall i :: 0 <= i < |chunks| ==>
          chunks[i].payload != [] && ReadsLine(line, chunks[i].line, |chunks[i].payload|))
    && ReadsLine(line, last, 0)
  }

  /** The parts of one chunk in front of something else. */
  lemma ChunkParts(line: seq<byte>, payload: seq<byte>, tail: seq<byte>)
    ensures var s := line + payload + [CR, LF] + tail;
            && |s| >= |line| + |payload| + 2
            && s[|line|..|line| + |payload|] == payload
            && s[|line| + |payload| + 2..] == tail
            && s == line + (payload + [CR, LF] + tail)
  {
  }

  lemma {:induction false} DecodeStep(line: LineReader, s: seq<byte>, payload: seq<byte>, used: nat, tail: seq<byte>)
    requires payload != [] && line(s) == Size(|payload|, used) && |s| >= used + |payload| + 2
    requires s[used..used + |payload|] == payload && s[used + |payload| + 2..] == tail && DecodeWith(line, tail).Some?
    ensures DecodeWith(line, s) == Some((payload + DecodeWith(line, tail).value.0, used + |payload| + 2
                                         + DecodeWith(line, tail).value.1))
  {
  }

  /** One chunk in front of something that decodes. */
  lemma {:induction false} DecodeOne(line: LineReader, c: Chunk, tail: seq<byte>)
    requires c.payload != [] && ReadsLine(line, c.line, |c.payload|) && DecodeWith(line, tail).Some?
    ensures DecodeWith(line, c.line + c.payload + [CR, LF] + tail)
         == Some((c.payload + DecodeWith(line, tail).value.0, |c.line| + |c.payload| + 2
                  + DecodeWith(line, tail).value.1))
  {
    ChunkParts(c.line, c.payload, tail);
    assert line(c.line + (c.payload + [CR, LF] + tail)) == Size(|c.payload|, |c.line|);
    DecodeStep(line, c.line + c.payload + [CR, LF] + tail, c.payload, |c.line|, tail);
  }

  lemma DecodeLast(line: LineReader, last: seq<byte>, rest: seq<byte>)
    requires ReadsLine(line, last, 0)
    ensures DecodeWith(line, last + [CR, LF] + rest) == Some(([], |last| + 2))
  {
    assert last + [CR, LF] + rest == last + ([CR, LF] + rest);
  }

  lemma EncodeParts(c: Chunk, more: seq<Chunk>, last: seq<byte>, rest: seq<byte>)
    ensures Encode([c] + more, last) + rest == c.line + c.payload + [CR, LF] + (Encode(more, last) + rest)
    ensures |Encode([c] + more, last)| == |c.line| + |c.payload| + 2 + |Encode(more, last)|
    ensures Payloads([c] + more) == c.payload + Payloads(more)
  {
    assert ([c] + more)[1..] == more;
  }

  lemma {:induction false} DecodeEncodeWith(line: LineReader, chunks: seq<Chunk>, last: seq<byte>, rest: seq<byte>)
    requires ReadsLines(line, chunks, last)
    ensures DecodeWith(line, Encode(chunks, last) + rest) == Some((Payloads(chunks), |Encode(chunks, last)|))
    decreases |chunks|
  {
    hide DecodeWith;
    if chunks == [] {
      DecodeLast(line, last, rest);
    } else {
      DecodeEncodeWith(line, chunks[1..], last, rest);
      EncodeParts(chunks[0], chunks[1..], last, rest);
      assert [chunks[0]] + chunks[1..] == chunks;
      DecodeOne(line, chunks[0], Encode(chunks[1..], last) + rest);
    }
  }

  lemma WellFormedIsRead(chunks: seq<Chunk>, last: seq<byte>)
    requires WellFormed(chunks, last)
    ensures ReadsLines(LineOf, chunks, last)
  {
    forall i, more | 0 <= i < |chunks|
      ensures LineOf(chunks[i].line + more) == Size(|chunks[i].payload|, |chunks[i].line|)
    {
      SizeLineIsRead(chunks[i].line, |chunks[i].payload|);
      LineOfPrefix(chunks[i].line, more);
    }
    forall more
      ensures LineOf(last + more) == Size(0, |last|)
    {
      SizeLineIsRead(last, 0);
      LineOfPrefix(last, more);
    }
  }

  /** Decoding what a peer encoded, whatever follows, gives the payloads and the length of the encoding. */
  lemma DecodeEncode(chunks: seq<Chunk>, last: seq<byte>, rest: seq<byte>)
    requires WellFormed(chunks, last)
    ensures Decode(Encode(chunks, last) + rest) == Some((Payloads(chunks), |Encode(chunks, last)|))
  {
    WellFormedIsRead(chunks, last);
    DecodeEncodeWith(LineOf, chunks, last, rest);
  }

  lemma {:induction false} EncodedFits(line: LineReader, chunks: seq<Chunk>, last: seq<byte>, rest: seq<byte>)
    requires ReadsLines(line, chunks, last) && forall i :: 0 <= i < |chunks| ==> |chunks[i].payload| + 2 < INT_LIMIT
    ensures SizesFitWith(line, Encode(chunks, last) + rest)
    decreases |chunks|
  {
    if chunks == [] {
      assert Encode(chunks, last) + rest == last + ([CR, LF] + rest);
    } else {
      var c, tail := chunks[0], Encode(chunks[1..], last) + rest;
      EncodedFits(line, chunks[1..], last, rest);
      EncodeParts(c, chunks[1..], last, rest);
      assert [c] + chunks[1..] == chunks;
      ChunkParts(c.line, c.payload, tail);
      assert line(c.line + (c.payload + [CR, LF] + tail)) == Size(|c.payload|, |c.line|);
    }
  }

  /** A well-formed encoding of chunks below 2 GiB is within reach of an int. */
  lemma EncodedSizesFit(chunks: seq<Chunk>, last: seq<byte>, rest: seq<byte>)
    requires WellFormed(chunks, last) && forall i :: 0 <= i < |chunks| ==> |chunks[i].payload| + 2 < INT_LIMIT
    ensures SizesFit(Encode(chunks, last) + rest)
  {
    WellFormedIsRead(chunks, last);
    EncodedFits(LineOf, chunks, last, rest);
  }
}
