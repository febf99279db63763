/** Concrete streams and reads on which the chunk loops of recvResponse do not return what the peer sent. */
module ChunkCases {
  import opened ChunkCoding
  import opened ChunkLines
  import opened ChunkRuns
  import opened ChunkSizes
  import opened Options
  import opened Streams
  import opened Words

  /** What was cut off and what is left in b make the same int: leading zeros, or a rest that reads as that number. */
  predicate SameIntIn(a: seq<byte>, b: seq<byte>)
    requires a != [] && b != []
  {
    if SEMICOLON in a then LineOf(b).Size? && ContentLen(LineOf(b).n) == SizeSeen(a, 0, 0)
    else IsHex(b[0]) && forall j :: 0 <= j < |a| ==> a[j] == 48
  }

  /**
   * A line cut behind its part a, whose rest b is found complete by the next read. The loop comes out with the size on
   * b; that is the size on the line, and the place, exactly if SameSizeIn; and if the size on the line is an int,
   * content_len is right exactly if SameIntIn.
   */
  lemma {:induction false} CutLine(at: At, room: nat, a: seq<byte>, b: seq<byte>)
    requires Fits(at, room) && IsReader(LineOf) && at.s == a + b && b != []
    requires LineRead(CountsOf(at), room) > 0 && |a| == at.buffered + LineRead(CountsOf(at), room)
    requires LineOf(a) == Incomplete && LineOf(a + b).Size?
    requires ReadLine(LineOf, At(b, 0, Rest(at.plan)), room).0.Parsed?
    requires !ReadLine(LineOf, At(b, 0, Rest(at.plan)), room).2
    ensures ReadLine(LineOf, at, room).2
    ensures LineOf(b).Size? && ReadLine(LineOf, at, room).0 == Parsed(ContentLen(LineOf(b).n))
    ensures ReadLine(LineOf, at, room).1.s == b[LineOf(b).used..] == at.s[LineOf(a + b).used..]
    ensures LineOf(b).n == LineOf(a + b).n <==> SameSizeIn(a, b)
    ensures LineOf(a + b).n < INT_LIMIT ==>
              (ReadLine(LineOf, at, room).0 == Parsed(LineOf(a + b).n) <==> SameIntIn(a, b))
  {
    var next := At(b, 0, Rest(at.plan));
    assert |a| > 0 && at.s[..|a|] == a && at.s[|a|..] == b;
    ParsedIsAhead(LineOf, next, room);
    SameEnd(a, b);
    SplitLine(a, b);
    assert b[LineOf(b).used..] == (a + b)[|a| + LineOf(b).used..];
    SplitSizes(a, b);
  }

  lemma {:induction false} SplitSizes(a: seq<byte>, b: seq<byte>)
    requires a != [] && b != [] && LineOf(a) == Incomplete && LineOf(a + b).Size? && LineOf(b).Size?
    ensures LineOf(a + b).n < INT_LIMIT ==> (ContentLen(LineOf(b).n) == LineOf(a + b).n <==> SameIntIn(a, b))
  {
    SizeOfSplit(a, b);
    SameEnd(a, b);
    SplitLine(a, b);
    ContentLenExactly(LineOf(b).n);
  }

  lemma {:induction false} OneDigitIsIncomplete()
    ensures LineOf([49]) == Incomplete
  {
  }

  /** A size of 33 bits cut behind its first digit: what was cut off is not zero, and the int is the same. */
  lemma {:induction false} CutKeepsInt()
    ensures var a, b := [49], [48, 48, 48, 48, 48, 48, 48, 49, CR, LF];
            && LineOf(a) == Incomplete && LineOf(a + b) == Size(U32 + 1, 11) && LineOf(b) == Size(1, 10)
            && ContentLen(U32 + 1) == 1 == ContentLen(1)
  {
    hide LineFrom;
    var b: seq<byte> := [48, 48, 48, 48, 48, 48, 48, 49, CR, LF];
    var s := [49] + b;
    OneDigitIsIncomplete();
    NineDigits(s);
    ZeroIsRead(b, 1, 0);
    ZeroIsRead(b, 2, 0);
    ZeroIsRead(b, 3, 0);
    ZeroIsRead(b, 4, 0);
    ZeroIsRead(b, 5, 0);
    ZeroIsRead(b, 6, 0);
    OneEnds(b, 7, 0);
  }

  /** The line 100000001. */
  lemma {:induction false} NineDigits(s: seq<byte>)
    requires |s| >= 11 && s[..11] == [49, 48, 48, 48, 48, 48, 48, 48, 49, CR, LF]
    ensures LineOf(s) == Size(U32 + 1, 11)
  {
    hide LineFrom;
    assert forall i :: 0 <= i < 11 ==> s[i] == s[..11][i];
    ZeroIsRead(s, 1, 1);
    ZeroIsRead(s, 2, 16);
    ZeroIsRead(s, 3, 256);
    ZeroIsRead(s, 4, 4096);
    ZeroIsRead(s, 5, 65536);
    ZeroIsRead(s, 6, 1048576);
    ZeroIsRead(s, 7, 16777216);
    OneEnds(s, 8, 268435456);
  }

  lemma {:induction false} ZeroIsRead(s: seq<byte>, i: nat, v: nat)
    requires 0 < i < |s| && s[i] == 48
    ensures LineFrom(s, i, Digits, v) == LineFrom(s, i + 1, Digits, 16 * v)
  {
  }

  lemma {:induction false} OneEnds(s: seq<byte>, i: nat, v: nat)
    requires 0 < i && i + 3 <= |s| && s[i] == 49 && s[i + 1] == CR && s[i + 2] == LF
    ensures LineFrom(s, i, Digits, v) == Size(16 * v + 1, i + 3)
  {
  }

  const ONE_CHUNK: seq<byte> := [49, CR, LF, 65, CR, LF, 48, CR, LF, CR, LF]

  const LAST_CHUNK: seq<byte> := [48, CR, LF]

  lemma {:induction false} LastIsSizeLine()
    ensures IsSizeLine(LAST_CHUNK, 0)
  {
    assert HexNumber([48]) == 0 && [48] + [CR, LF] == LAST_CHUNK;
    PlainLine([48]);
  }

  /** One chunk and the last one: what they decode to, and that their sizes fit. */
  lemma {:induction false} OneDecodes(c: Chunk)
    requires c.payload != [] && IsSizeLine(c.line, |c.payload|) && |c.payload| + 2 < INT_LIMIT
    ensures var s := c.line + c.payload + [CR, LF] + (LAST_CHUNK + [CR, LF]);
            SizesFit(s) && Decode(s) == Some((c.payload, |s|))
  {
    LastIsSizeLine();
    assert [c][1..] == [] && Encode([], LAST_CHUNK) == LAST_CHUNK + [CR, LF];
    var s := Encode([c], LAST_CHUNK);
    assert s == c.line + c.payload + [CR, LF] + (LAST_CHUNK + [CR, LF]) && s + [] == s;
    assert Payloads([c]) == c.payload + Payloads([]) == c.payload;
    DecodeEncode([c], LAST_CHUNK, []);
    EncodedSizesFit([c], LAST_CHUNK, []);
  }

  lemma {:induction false} OneChunkDecodes()
    ensures SizesFit(ONE_CHUNK) && Decode(ONE_CHUNK) == Some(([65], 11))
  {
    var line: seq<byte> := [49, CR, LF];
    assert HexNumber([49]) == 1 && [49] + [CR, LF] == line;
    PlainLine([49]);
    OneDecodes(Chunk(line, [65]));
    assert ONE_CHUNK == line + [65] + [CR, LF] + (LAST_CHUNK + [CR, LF]);
  }

  lemma {:induction false} OneChunkExtents()
    ensures Extents(ONE_CHUNK) == [Extent(3, 1), Extent(3, 0)]
  {
    OneChunkDecodes();
    assert LineFrom(ONE_CHUNK, 1, Digits, 1) == Size(1, 3);
    DecodeTurn(LineOf, ONE_CHUNK, 1, 3);
    var tail := ONE_CHUNK[3..][3..];
    assert tail == [48, CR, LF, CR, LF];
    assert LineFrom(tail, 1, Digits, 0) == Size(0, 3);
    DecodeTurn(LineOf, tail, 0, 3);
  }

  /** A body of one byte that arrives complete in one read is not returned, whatever the transport does afterwards. */
  lemma {:induction false} LateBodyIsLost(plan: seq<int>, room: nat)
    requires room >= 11
    ensures Decode(ONE_CHUNK) == Some(([65], 11)) && Assemble(At(ONE_CHUNK, 0, [11] + plan), room).r == Closed
  {
    var at := At(ONE_CHUNK, 0, [11] + plan);
    OneChunkDecodes();
    OneChunkExtents();
    ChunksExactly(at, room);
    assert LineRead(CountsOf(at), room) == 11;
    var after := Take(PastLine(CountsOf(at), 3, 11), 3, room);
    assert after == Some(Counts(5, 0, Rest(at.plan)));
    assert LineRead(after.value, room) <= 0;
    assert [Extent(3, 1), Extent(3, 0)][1..] == [Extent(3, 0)];
  }

  /** A chunk of 16 bytes whose size line 10 is cut behind its first digit: the body that is returned is empty. */
  lemma {:induction false} CutLineEndsBody(payload: seq<byte>, plan: seq<int>, room: nat)
    requires |payload| == 16 && room >= 32
    ensures var s := [49, 48, CR, LF] + payload + [CR, LF] + (LAST_CHUNK + [CR, LF]);
            && SizesFit(s) && Decode(s) == Some((payload, |s|))
            && Assemble(At(s, 0, [1, 32] + plan), room).split && Assemble(At(s, 0, [1, 32] + plan), room).r == Body([])
  {
    SixteenDecode(payload);
    LineOfIsReader();
    var s := [49, 48, CR, LF] + payload + [CR, LF] + (LAST_CHUNK + [CR, LF]);
    var at, next := At(s, 0, [1, 32] + plan), At(s[1..], 0, [32] + plan);
    assert s[..1] == [49] && LineOf([49]) == Incomplete;
    assert Rest(at.plan) == next.plan;
    assert LineTurn(LineOf, at, room) == (Unfinished, next);
    assert s[1..][..3] == LAST_CHUNK;
    CutLineIsZero(s[1..], plan, room);
  }

  lemma {:induction false} SixteenDecode(payload: seq<byte>)
    requires |payload| == 16
    ensures var s := [49, 48, CR, LF] + payload + [CR, LF] + (LAST_CHUNK + [CR, LF]);
            SizesFit(s) && Decode(s) == Some((payload, |s|))
  {
    var line: seq<byte> := [49, 48, CR, LF];
    assert [49, 48][..1] == [49] && HexNumber([49]) == 1 && [49, 48] + [CR, LF] == line;
    PlainLine([49, 48]);
    OneDecodes(Chunk(line, payload));
  }

  lemma {:induction false} CutLineIsZero(s: seq<byte>, plan: seq<int>, room: nat)
    requires IsReader(LineOf) && 5 <= |s| <= 32 <= room && s[..3] == LAST_CHUNK
    ensures AssembleWith(LineOf, At(s, 0, [32] + plan), room).r == Body([])
  {
    var at := At(s, 0, [32] + plan);
    assert s[..|s|] == s && s[0] == s[..3][0] && s[1] == s[..3][1] && s[2] == s[..3][2];
    assert LineFrom(s, 1, Digits, 0) == Size(0, 3);
    assert LineRead(CountsOf(at), room) == |s|;
    ContentLenFits(0);
    ReadLineExactly(LineOf, at, room, |s|);
    AssembleTurn(LineOf, at, room, 0, BehindLine(at, 3, |s|));
  }

  const LARGE_SIZE: seq<byte> := [49, 48, 48, 48, 48, 48, 48, 48, 49, CR, LF, 65, CR, LF, 48, CR, LF, CR, LF]

  /** The size is 2^32 + 1, far more than there is; as an int it is 1. */
  lemma {:induction false} LargeSizeLine()
    ensures LineOf(LARGE_SIZE) == Size(U32 + 1, 11) && ContentLen(U32 + 1) == 1
  {
    var s := LARGE_SIZE;
    NineDigits(s);
  }

  lemma {:induction false} LargeSizeDecodes()
    ensures Decode(LARGE_SIZE).None?
    ensures DecodeInts(LARGE_SIZE) == Some(([65], 19)) && ExtentsInts(LARGE_SIZE) == [Extent(11, 1), Extent(3, 0)]
  {
    LargeSizeLine();
    var line, s := AsInts(LineOf), LARGE_SIZE;
    var tail := s[14..];
    assert tail == [48, CR, LF, CR, LF] && LineFrom(tail, 1, Digits, 0) == Size(0, 3);
    assert LineOf(tail) == Size(0, 3);
    IntLineExactly(0, 3);
    assert line(tail) == Size(0, 3) && line(s) == Size(1, 11);
    assert DecodeWith(line, tail) == Some(([], 5)) && ExtentsWith(line, tail) == [Extent(3, 0)];
    FirstChunk(line, s, Some(([], 5)), [Extent(3, 0)]);
    assert s[11..12] + [] == [65];
  }

  /**
   * A stream of 19 bytes whose chunk-size line says 2^32 + 1, which does not decode: nothing is split, and a body of
   * one byte is returned.
   */
  lemma {:induction false} LargeSizeIsCut(plan: seq<int>, room: nat)
    requires room >= 20
    ensures Decode(LARGE_SIZE).None?
    ensures !Assemble(At(LARGE_SIZE, 0, [18, 1] + plan), room).split
    ensures Assemble(At(LARGE_SIZE, 0, [18, 1] + plan), room).r == Body([65])
  {
    hide AssembleWith, DecodeWith, LineOf, LineFrom;
    var at := At(LARGE_SIZE, 0, [18, 1] + plan);
    LargeSizeDecodes();
    AnyChunksExactly(at, room);
    var c := CountsOf(at);
    assert LineRead(c, room) == 18;
    var after := Take(PastLine(c, 11, 18), 3, room);
    assert Rest(at.plan) == [1] + plan && after == Some(Counts(4, 1, [1] + plan));
    assert LineRead(after.value, room) == 1;
    var last := Take(PastLine(after.value, 3, 1), 2, room);
    assert last == Some(Counts(0, 0, Rest([1] + plan)));
    var es := [Extent(11, 1), Extent(3, 0)];
    assert es[1..] == [Extent(3, 0)] && [Extent(3, 0)][1..] == [];
    assert Arrives([], last.value, room) == InTime;
    assert Arrives([Extent(3, 0)], after.value, room) == InTime;
  }
}
