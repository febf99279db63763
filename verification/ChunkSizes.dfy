/**
 * The size on a chunk-size line becomes an int, content_len. What the chunk loops make of any bytes is stated with the
 * sizes they take.
 */
module ChunkSizes {
  import opened ChunkCoding
  import opened ChunkLines
  import opened ChunkRuns
  import opened Options
  import opened Streams
  import opened Words

  /** content_len is the size on the line exactly if that is an int. */
  lemma {:induction false} ContentLenExactly(n: nat)
    ensures ContentLen(n) == n <==> n < INT_LIMIT
    ensures ContentLen(n) < INT_LIMIT
  {
    if n < INT_LIMIT {
      SmallMod(n, U32);
    }
  }

  /** A line as the loops take it: content_len for its size, and no way on if that is negative or overflows with 2. */
  function IntLine(l: Line): Line {
    match l
    case Size(n, used) =>
      if 0 <= ContentLen(n) && ContentLen(n) + 2 < INT_LIMIT then Size(ContentLen(n), used) else Elsewhere
    case _ => l
  }

  function AsInts(line: LineReader): LineReader {
    s => IntLine(line(s))
  }

  /** What it is otherwise: the int with the same low 32 bits, and -1 once strtol saturates. */
  lemma {:induction false} ContentLenIs(n: nat)
    ensures 0 - INT_LIMIT <= ContentLen(n) < INT_LIMIT
    ensures n < LONG_LIMIT ==> (ContentLen(n) - n) % U32 == 0
    ensures n >= LONG_LIMIT ==> ContentLen(n) == -1
  {
    CastToIntIs(if n < LONG_LIMIT then n else LONG_LIMIT - 1);
  }

  /** That is the line itself exactly if the size fits an int together with the two bytes behind the chunk. */
  lemma {:induction false} IntLineExactly(n: nat, used: nat)
    ensures IntLine(Size(n, used)) == Size(n, used) <==> n + 2 < INT_LIMIT
  {
    ContentLenExactly(n);
  }

  lemma {:induction false} AsIntsIsReader(line: LineReader)
    requires IsReader(line)
    ensures IsReader(AsInts(line))
  {
    forall s, have: nat | have <= |s|
      ensures AsInts(line)(s).Size? && AsInts(line)(s).used <= have ==> AsInts(line)(s[..have]) == AsInts(line)(s)
      ensures AsInts(line)(s[..have]) != Incomplete ==> AsInts(line)(s) == AsInts(line)(s[..have])
    {
      var whole, part := line(s), line(s[..have]);
    }
  }

  lemma {:induction false} AsIntsFit(line: LineReader, s: seq<byte>)
    ensures SizesFitWith(AsInts(line), s)
    decreases |s|
  {
    assert AsInts(line)(s) == IntLine(line(s));
    match AsInts(line)(s)
    case Size(n, used) =>
      if 0 < n && used + n + 2 <= |s| {
        AsIntsFit(line, s[used + n + 2..]);
      }
    case _ =>
  }

  /** Where all sizes fit, nothing is different. */
  lemma {:induction false} FittingIsSame(line: LineReader, s: seq<byte>)
    requires SizesFitWith(line, s)
    ensures DecodeWith(AsInts(line), s) == DecodeWith(line, s) && ExtentsWith(AsInts(line), s) == ExtentsWith(line, s)
    decreases |s|
  {
    if line(s).Size? {
      var n, used := line(s).n, line(s).used;
      IntLineExactly(n, used);
      assert AsInts(line)(s) == line(s);
      if 0 < n && used + n + 2 <= |s| {
        FittingIsSame(line, s[used + n + 2..]);
        SameFirst(line, AsInts(line), s);
      }
    } else {
      assert AsInts(line)(s) == line(s);
    }
  }

  /** Two readers that agree on the first line and on what is behind its chunk. */
  lemma {:induction false} SameFirst(line: LineReader, line': LineReader, s: seq<byte>)
    requires line(s) == line'(s) && line(s).Size? && 0 < line(s).n && line(s).used + line(s).n + 2 <= |s|
    requires var tail := s[line(s).used + line(s).n + 2..];
             DecodeWith(line', tail) == DecodeWith(line, tail) && ExtentsWith(line', tail) == ExtentsWith(line, tail)
    ensures DecodeWith(line', s) == DecodeWith(line, s) && ExtentsWith(line', s) == ExtentsWith(line, s)
  {
    hide DecodeWith, ExtentsWith;
    var tail := s[line(s).used + line(s).n + 2..];
    FirstChunk(line, s, DecodeWith(line, tail), ExtentsWith(line, tail));
    FirstChunk(line', s, DecodeWith(line, tail), ExtentsWith(line, tail));
  }

  lemma {:induction false} FirstChunk(line: LineReader, s: seq<byte>, d: Option<(seq<byte>, nat)>, es: seq<Extent>)
    requires line(s).Size? && 0 < line(s).n && line(s).used + line(s).n + 2 <= |s|
    requires DecodeWith(line, s[line(s).used + line(s).n + 2..]) == d
    requires ExtentsWith(line, s[line(s).used + line(s).n + 2..]) == es
    ensures var Size(n, used) := line(s);
            && DecodeWith(line, s) == (if d.None? then None
                                       else Some((s[used..used + n] + d.value.0, used + n + 2 + d.value.1)))
            && ExtentsWith(line, s) == [Extent(used, n)] + es
  {
  }

  // ---------------------------------------------------------------- the loops take their sizes so

  predicate Usable(size: SizeLine) {
    size.Parsed? && 0 <= size.contentLen && size.contentLen + 2 < INT_LIMIT
  }

  lemma {:induction false} SameTurn(line: LineReader, at: At, room: nat)
    requires IsReader(line) && IsReader(AsInts(line)) && Fits(at, room)
    ensures var (r, next) := LineTurn(line, at, room);
            if r.Parsed? && !Usable(r) then LineTurn(AsInts(line), at, room).0 == Other
            else LineTurn(AsInts(line), at, room) == (r, next)
  {
    var n := LineRead(CountsOf(at), room);
    if n > 0 {
      var l := line(at.s[..at.buffered + n]);
      if l.Size? && 0 <= ContentLen(l.n) {
        ContentLenExactly(l.n);
        ContentLenExactly(ContentLen(l.n));
      }
    }
  }

  lemma {:induction false} SameRead(line: LineReader, at: At, room: nat)
    requires IsReader(line) && IsReader(AsInts(line)) && Fits(at, room)
    ensures var (r, next, split) := ReadLine(line, at, room);
            if r.Parsed? && !Usable(r) then
              ReadLine(AsInts(line), at, room).0 == Other && ReadLine(AsInts(line), at, room).2 == split
            else ReadLine(AsInts(line), at, room) == (r, next, split)
    decreases |at.plan|
  {
    SameTurn(line, at, room);
    var (r, next) := LineTurn(line, at, room);
    if r.Unfinished? {
      SameRead(line, next, room);
    }
  }

  /** The same outcome, but for the place the source does not define. */
  ghost predicate SameOutcome(o: Outcome, o': Outcome) {
    if o.r == Undefined then o'.r == Unmodelled && o'.split == o.split else o' == o
  }

  lemma {:induction false} SameBehind(piece: seq<byte>, split: bool, o: Outcome, o': Outcome)
    requires SameOutcome(o, o')
    ensures SameOutcome(Behind(piece, split, o), Behind(piece, split, o'))
  {
  }

  lemma {:induction false} SameAssembly(line: LineReader, at: At, room: nat)
    requires IsReader(line) && IsReader(AsInts(line)) && Fits(at, room)
    ensures SameOutcome(AssembleWith(line, at, room), AssembleWith(AsInts(line), at, room))
    decreases |at.plan|
  {
    SameRead(line, at, room);
    var (size, next, split) := ReadLine(line, at, room);
    if Usable(size) {
      var after := TakeChunk(next, size.contentLen, room);
      if after.Some? {
        SameAssembly(line, after.value, room);
        SameBehind(next.s[..size.contentLen], split, AssembleWith(line, after.value, room),
                   AssembleWith(AsInts(line), after.value, room));
      }
    }
  }

  // ---------------------------------------------------------------- any bytes

  /** What a stream decodes to when its sizes are taken as the source takes them. */
  function DecodeInts(s: seq<byte>): Option<(seq<byte>, nat)> {
    DecodeWith(AsInts(LineOf), s)
  }

  function ExtentsInts(s: seq<byte>): seq<Extent> {
    ExtentsWith(AsInts(LineOf), s)
  }

  /** That is what it means, if all sizes fit. */
  lemma {:induction false} FittingDecodes(s: seq<byte>)
    requires SizesFit(s)
    ensures DecodeInts(s) == Decode(s) && ExtentsInts(s) == Extents(s)
  {
    FittingIsSame(LineOf, s);
  }

  /**
   * Whatever the bytes are: if they decode with the sizes the source takes, that body is returned if and only if the
   * chunks arrive in time, and a line is split if and only if one is cut by the end of a read; if they do not, nothing
   * is returned unless a line is split.
   */
  lemma {:induction false} AnyChunksExactly(at: At, room: nat)
    requires Fits(at, room)
    ensures DecodeInts(at.s).Some? ==>
              var (body, used) := DecodeInts(at.s).value;
              Agree(Assemble(at, room), Arrives(ExtentsInts(at.s), CountsOf(at), room), body, at.s[used..])
    ensures DecodeInts(at.s).None? ==> Assemble(at, room).split || !Assemble(at, room).r.Body?
  {
    LineOfIsReader();
    AnyChunksWith(LineOf, at, room);
  }

  lemma {:induction false} AnyChunksWith(line: LineReader, at: At, room: nat)
    requires IsReader(line) && Fits(at, room)
    ensures DecodeWith(AsInts(line), at.s).Some? ==>
              var (body, used) := DecodeWith(AsInts(line), at.s).value;
              Agree(AssembleWith(line, at, room), Arrives(ExtentsWith(AsInts(line), at.s), CountsOf(at), room), body,
                    at.s[used..])
    ensures DecodeWith(AsInts(line), at.s).None? ==>
              AssembleWith(line, at, room).split || !AssembleWith(line, at, room).r.Body?
  {
    AsIntsIsReader(line);
    AsIntsFit(line, at.s);
    SameAssembly(line, at, room);
    if DecodeWith(AsInts(line), at.s).Some? {
      ChunksExactlyWith(AsInts(line), at, room);
    } else {
      MoreDecoded(AsInts(line), at, room);
    }
  }

  /**
   * One turn of the outer loop whose line is not split, with size n on it: undefined if content_len is negative or
   * overflows with 2, and else it takes content_len bytes, which is what the line says exactly if n is an int.
   */
  lemma {:induction false} SizeTurn(at: At, room: nat, n: nat, next: At)
    requires Fits(at, room) && IsReader(LineOf) && LineOf(at.s).Size? && LineOf(at.s).n == n
    requires ReadLine(LineOf, at, room).0.Parsed? && !ReadLine(LineOf, at, room).2
    requires ReadLine(LineOf, at, room).1 == next
    ensures next.s == at.s[LineOf(at.s).used..]
    ensures !(0 <= ContentLen(n) && ContentLen(n) + 2 < INT_LIMIT) ==>
              Assemble(at, room) == Outcome(Undefined, false, next)
    ensures 0 <= ContentLen(n) && ContentLen(n) + 2 < INT_LIMIT ==>
              var after := TakeChunk(next, ContentLen(n), room);
              && (after.None? ==> Assemble(at, room) == Outcome(Closed, false, next))
              && (after.Some? ==> after.value.s == next.s[ContentLen(n) + 2..])
              && (after.Some? && ContentLen(n) > 0 ==>
                    Assemble(at, room) == Behind(next.s[..ContentLen(n)], false, Assemble(after.value, room)))
              && (after.Some? && ContentLen(n) == 0 ==> Assemble(at, room) == Outcome(Body([]), false, after.value))
    ensures ContentLen(n) == n <==> n < INT_LIMIT
  {
    ParsedIsAhead(LineOf, at, room);
    ContentLenExactly(n);
    if 0 <= ContentLen(n) && ContentLen(n) + 2 < INT_LIMIT {
      AssembleTurn(LineOf, at, room, ContentLen(n), next);
    }
  }

  /**
   * Unless a line is split, a returned body is that of a stream that decodes with the sizes the source takes, and with
   * those on its lines if they fit; and the source's behaviour is defined if they fit.
   */
  lemma {:induction false} OnlyDecoded(at: At, room: nat)
    requires Fits(at, room) && !Assemble(at, room).split
    ensures Assemble(at, room).r.Body? ==> DecodeInts(at.s).Some?
    ensures Assemble(at, room).r.Body? && SizesFit(at.s) ==> Decode(at.s).Some?
    ensures Assemble(at, room).r == Undefined ==> !SizesFit(at.s)
  {
    LineOfIsReader();
    AnyChunksExactly(at, room);
    if SizesFit(at.s) {
      FittingDecodes(at.s);
      MoreDecoded(LineOf, at, room);
    }
  }
}
