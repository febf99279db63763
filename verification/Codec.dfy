/**
 * The wire formats of ByteArray as functions on byte sequences: what each writer appends and
 * what each reader makes of the bytes in front of the cursor.
 */
module Codec {
  import opened Words

  /** One value together with the writer that puts it on the wire. */
  datatype Item =
    | Fuint(width: nat, u: nat)       // writeFuint8/16/32/64
    | Fint(width: nat, i: int)        // writeFint8/16/32/64
    | Uint(bits: nat, v: nat)         // writeUint32/64
    | Int(bits: nat, z: int)          // writeInt32/64
    | Text(prefix: nat, s: seq<byte>) // writeStringF16/32/64
  {
    /** The argument types of the C++ writers. */
    predicate Valid() {
      match this
      case Fuint(w, u) => IsWidth(w) && u < Pow256(w)
      case Fint(w, i) => IsWidth(w) && SignedRange(8 * w, i)
      case Uint(b, v) => (b == 32 || b == 64) && v < Pow2(b)
      case Int(b, z) => (b == 32 || b == 64) && SignedRange(b, z)
      case Text(p, s) => p == 2 || p == 4 || p == 8
    }

    /** Whether the length prefix can hold the length. Numbers always fit. */
    predicate Fits() {
      Text? ==> |s| < Pow256(prefix)
    }

    /** The reader that matches the writer. */
    function Shape(): (r: Shape)
      ensures Valid() ==> r.Valid()
    {
      match this
      case Fuint(w, _) => SFuint(w)
      case Fint(w, _) => SFint(w)
      case Uint(b, _) => SUint(b)
      case Int(b, _) => SInt(b)
      case Text(p, _) => SText(p)
    }
  }

  datatype Shape = SFuint(width: nat) | SFint(width: nat) | SUint(bits: nat) | SInt(bits: nat) | SText(prefix: nat)
  {
    predicate Valid() {
      match this
      case SFuint(w) => IsWidth(w)
      case SFint(w) => IsWidth(w)
      case SUint(b) => b == 32 || b == 64
      case SInt(b) => b == 32 || b == 64
      case SText(p) => p == 2 || p == 4 || p == 8
    }
  }

  predicate IsWidth(w: nat) {
    w == 1 || w == 2 || w == 4 || w == 8
  }

  /** The octets of uint8_t, uint16_t, uint32_t and uint64_t. */
  lemma WidthsArePowers(w: nat)
    ensures IsWidth(w) <==> exists k: nat :: k <= 3 && w == Pow2(k)
  {
    assert Pow2(0) == 1 && Pow2(1) == 2 && Pow2(2) == 4 && Pow2(3) == 8;
  }

  /** Two's complement integers of the given number of bits. */
  predicate SignedRange(bits: nat, i: int) {
    bits > 0 && 0 - Pow2(bits - 1) <= i < Pow2(bits - 1)
  }

  /** Conversion of a signed word to the unsigned word with the same bits. */
  function ToUnsigned(bits: nat, i: int): (u: nat)
    requires SignedRange(bits, i)
    ensures u < Pow2(bits)
  {
    if i < 0 then i + Pow2(bits) else i
  }

  /** Conversion of an unsigned word to the signed word with the same bits. */
  function ToSigned(bits: nat, u: nat): (i: int)
    requires bits > 0 && u < Pow2(bits)
    ensures SignedRange(bits, i)
  {
    if u < Pow2(bits - 1) then u else u - Pow2(bits)
  }

  /**
   * What a read leaves behind: a value and the number of bytes it used, or one of the two ways
   * it can fail after using some bytes. `NullCursor` is the null dereference of read() on a zero
   * length request with the cursor at the very end of the allocated nodes.
   */
  datatype Decoded<+T> = Got(value: T, used: nat) | OutOfRange(used: nat) | NullCursor(used: nat)

  // ---------------------------------------------------------------- fixed-width words

  /** writeF*: swap when the array's order is not the host's, then copy the word's memory. */
  function EncodeFixed(order: ByteOrder, host: ByteOrder, w: nat, u: nat): (s: seq<byte>)
    ensures |s| == w
  {
    Native(host, if order != host && w > 1 then ByteSwap(u, w) else u, w)
  }

  /** readF* on w bytes: copy into the word's memory, then swap when the orders differ. */
  function WordOf(order: ByteOrder, host: ByteOrder, s: seq<byte>): nat {
    var u := FromNative(host, s);
    if order != host && |s| > 1 then ByteSwap(u, |s|) else u
  }

  /** The swap and the host's layout cancel: the image is the array's order's own. */
  lemma {:induction false} FixedIsNative(order: ByteOrder, host: ByteOrder, w: nat, u: nat)
    requires u < Pow256(w)
    ensures EncodeFixed(order, host, w, u) == Native(order, u, w)
  {
    var s := ToLittle(u, w);
    if order != host {
      if w > 1 {
        ByteSwapReverses(u, w);
        ReverseReverse(s);
      } else {
        assert Reverse(s) == s;
      }
    }
  }

  /** The wire image depends on the array's order only: hosts of either kind interoperate. */
  lemma FixedIsHostIndependent(order: ByteOrder, host: ByteOrder, other: ByteOrder, w: nat, u: nat)
    requires u < Pow256(w)
    ensures EncodeFixed(order, host, w, u) == EncodeFixed(order, other, w, u)
    ensures (if order.LittleEndian? then FromLittle(EncodeFixed(order, host, w, u))
             else FromBig(EncodeFixed(order, host, w, u))) == u
  {
    FixedIsNative(order, host, w, u);
    FixedIsNative(order, other, w, u);
    NativeRoundTrip(order, u, w);
    FromBigReverses(Native(order, u, w));
  }

  lemma WordOfFixed(order: ByteOrder, host: ByteOrder, w: nat, u: nat)
    requires u < Pow256(w)
    ensures WordOf(order, host, EncodeFixed(order, host, w, u)) == u
  {
    ByteSwapReverses(u, w);
    NativeRoundTrip(host, u, w);
    NativeRoundTrip(host, ByteSwap(u, w), w);
    ByteSwapInvolution(u, w);
  }

  lemma {:induction false} WordOfBound(order: ByteOrder, host: ByteOrder, s: seq<byte>)
    ensures WordOf(order, host, s) < Pow256(|s|)
  {
    FromLittleBound(s);
    FromLittleBound(Reverse(s));
    ByteSwapReverses(FromNative(host, s), |s|);
  }

  /** A fixed-size read of n > 0 bytes. */
  function DecodeFixed(order: ByteOrder, host: ByteOrder, w: nat, bs: seq<byte>): (d: Decoded<nat>)
    requires w > 0
    ensures d.used <= |bs| && !d.NullCursor?
    ensures d.Got? ==> d.value < Pow256(w)
  {
    if w > |bs| then OutOfRange(0)
    else
      WordOfBound(order, host, bs[..w]);
      Got(WordOf(order, host, bs[..w]), w)
  }

  lemma FixedRoundTrip(order: ByteOrder, host: ByteOrder, w: nat, u: nat, rest: seq<byte>)
    requires w > 0 && u < Pow256(w)
    ensures DecodeFixed(order, host, w, EncodeFixed(order, host, w, u) + rest) == Got(u, w)
  {
    WordOfFixed(order, host, w, u);
    var e := EncodeFixed(order, host, w, u);
    assert (e + rest)[..w] == e;
  }

  /** A word written before setIsLittleEndian and read behind it comes out with its bytes swapped. */
  lemma FixedInOtherOrder(order: ByteOrder, other: ByteOrder, host: ByteOrder, w: nat, u: nat, rest: seq<byte>)
    requires w > 0 && u < Pow256(w)
    ensures DecodeFixed(other, host, w, EncodeFixed(order, host, w, u) + rest)
         == Got(if order == other then u else ByteSwap(u, w), w)
  {
    if order == other {
      FixedRoundTrip(order, host, w, u, rest);
    } else {
      FixedIsNative(order, host, w, u);
      FixedIsNative(other, host, w, ByteSwap(u, w));
      ByteSwapReverses(u, w);
      ReverseReverse(ToLittle(u, w));
      FixedRoundTrip(other, host, w, ByteSwap(u, w), rest);
    }
  }

  // ---------------------------------------------------------------- varint

  /** Seven bits a byte, low bits first, the top bit set on all bytes but the last. */
  function Varint(v: nat): (s: seq<byte>)
    ensures |s| >= 1
  {
    if v < 0x80 then [v] else [v % 0x80 + 0x80] + Varint(v / 0x80)
  }

  /** 128 to the power k. */
  function Pow128(k: nat): (p: nat)
    ensures p >= 1
  {
    if k == 0 then 1 else 0x80 * Pow128(k - 1)
  }

  lemma {:induction false} Pow128IsPow2(k: nat)
    ensures Pow128(k) == Pow2(7 * k)
  {
    if k != 0 {
      Pow128IsPow2(k - 1);
      Pow2Add(7, 7 * (k - 1));
      WordSizes();
    }
  }

  /** The encoding is as short as seven bits a byte allow: k bytes suffice exactly when v < 2^(7k). */
  lemma {:induction false} VarintIsShortest(v: nat, k: nat)
    requires k >= 1
    ensures |Varint(v)| <= k <==> v < Pow2(7 * k)
    decreases k
  {
    Pow128IsPow2(k);
    if k == 1 {
      assert Pow128(0) == 1;
    } else {
      Pow128IsPow2(k - 1);
      if v < 0x80 {
        assert Pow128(k) >= 0x80;
      } else {
        VarintIsShortest(v / 0x80, k - 1);
        assert v / 0x80 < Pow128(k - 1) <==> v < 0x80 * Pow128(k - 1);
      }
    }
  }

  /** Never more than the 5 or 10 bytes of the writers' scratch arrays. */
  lemma VarintFitsScratch(v: nat)
    ensures v < U32 ==> |Varint(v)| <= 5
    ensures v < U64 ==> |Varint(v)| <= 10
  {
    WordSizes();
    VarintIsShortest(v, 5);
    VarintIsShortest(v, 10);
    Pow2Add(32, 3);
    Pow2Add(64, 6);
  }

  /** t << i in a word of `bits` bits: the bits of t that would leave the word drop out. */
  function ShiftLeft(bits: nat, i: nat, t: nat): nat
    requires i <= bits
  {
    Pow2(i) * LowBits(bits - i, t)
  }

  /** The shift is multiplication in the ring of words. */
  lemma {:induction false} ShiftLeftIsModular(bits: nat, i: nat, t: nat)
    requires i <= bits
    ensures ShiftLeft(bits, i, t) == t * Pow2(i) % Pow2(bits)
  {
    LowBitsIsMod(bits - i, t);
    Pow2Add(i, bits - i);
    var r := ShiftMod(t, Pow2(i), Pow2(bits - i), Pow2(bits));
  }

  lemma VarintFitsWord(bits: nat, v: nat)
    requires (bits == 32 || bits == 64) && v < Pow2(bits)
    ensures |Varint(v)| <= if bits == 32 then 5 else 10
  {
    WordSizes();
    VarintFitsScratch(v);
  }

  /** One more byte of the varint of v behind those that are done. */
  lemma {:induction false} NextSeven(done: seq<byte>, v: nat, next: seq<byte>)
    requires v >= 0x80 && next == done + [v % 0x80 + 0x80]
    ensures next + Varint(v / 0x80) == done + Varint(v) && |Varint(v)| == 1 + |Varint(v / 0x80)|
  {
  }

  lemma {:induction false} LastSeven(v: nat)
    requires v < 0x80
    ensures Varint(v) == [v]
  {
  }

  /** The loop of writeUint32/64: the scratch array of 5 or 10 bytes is long enough for every word. */
  method VarintBytes(bits: nat, v: nat) returns (s: seq<byte>)
    requires (bits == 32 || bits == 64) && v < Pow2(bits)
    ensures s == Varint(v)
  {
    hide *;
    VarintFitsWord(bits, v);
    var tmp := new byte[if bits == 32 then 5 else 10];
    var i, value := 0, v;
    while value >= 0x80
      invariant 0 <= i && i + |Varint(value)| == |Varint(v)| <= tmp.Length
      invariant tmp[..i] + Varint(value) == Varint(v)
    {
      ghost var done, more := tmp[..i], value;
      tmp[i] := value % 0x80 + 0x80;
      i := i + 1;
      value := value / 0x80;
      NextSeven(done, more, tmp[..i]);
    }
    LastSeven(value);
    tmp[i] := value;
    s := tmp[..i + 1];
    assert s == tmp[..i] + [value];
  }

  /**
   * readUint32/64 from bit position i on: at most one byte per seven bits, each shifted to its
   * place and or-ed in. What is or-ed in later has its bits above what is there already, so
   * the or is a sum.
   */
  function DecodeVarint(bits: nat, i: nat, bs: seq<byte>): (d: Decoded<nat>)
    ensures d.used <= |bs| && !d.NullCursor?
    decreases |bs|
  {
    if i >= bits then Got(0, 0)
    else if bs == [] then OutOfRange(0)
    else if bs[0] < 0x80 then Got(ShiftLeft(bits, i, bs[0]), 1)
    else
      match DecodeVarint(bits, i + 7, bs[1..])
      case Got(v, n) => Got(ShiftLeft(bits, i, bs[0] - 0x80) + v, n + 1)
      case OutOfRange(n) => OutOfRange(n + 1)
  }

  lemma {:induction false} DecodeEnds(bits: nat, i: nat, bs: seq<byte>)
    requires i >= bits
    ensures DecodeVarint(bits, i, bs) == Got(0, 0)
  {
  }

  /** Every partial sum has its bits at position i or above and inside the word. */
  lemma {:induction false} DecodeVarintMultiple(bits: nat, i: nat, bs: seq<byte>) returns (k: nat)
    requires DecodeVarint(bits, i, bs).Got?
    ensures DecodeVarint(bits, i, bs).value == Pow2(i) * k
    ensures if i <= bits then k < Pow2(bits - i) else k == 0
    decreases |bs|
  {
    if i >= bits {
      k := 0;
    } else if bs[0] < 0x80 {
      k := LowBits(bits - i, bs[0]);
    } else {
      var r := LowBits(bits - i, bs[0] - 0x80);
      var k' := DecodeVarintMultiple(bits, i + 7, bs[1..]);
      AddSevenBits(bits, i, r, k');
      k := r + 0x80 * k';
    }
  }

  lemma AddSevenBits(bits: nat, i: nat, lo: nat, hi: nat)
    requires i < bits && lo < 0x80 && lo < Pow2(bits - i)
    requires if i + 7 <= bits then hi < Pow2(bits - (i + 7)) else hi == 0
    ensures Pow2(i) * lo + Pow2(i + 7) * hi == Pow2(i) * (lo + 0x80 * hi)
    ensures lo + 0x80 * hi < Pow2(bits - i)
  {
    Pow2Add(i, 7);
    WordSizes();
    Regroup(Pow2(i), lo, hi);
    if i + 7 <= bits {
      Pow2Add(7, bits - (i + 7));
    }
  }

  lemma Regroup(p: nat, lo: nat, hi: nat)
    ensures p * lo + (p * 0x80) * hi == p * (lo + 0x80 * hi)
  {
  }

  /** Shifting t left inside a word keeps r, the bits of t that stay in it. */
  lemma ShiftMod(t: nat, p: nat, b: nat, d: nat) returns (r: nat)
    requires p > 0 && b > 0 && d == p * b && d > 0
    ensures t * p % d == p * r
    ensures r == t % b
  {
    var q := t / b;
    r := t % b;
    DivModDef(t, b);
    ShiftModParts(t, p, b, d, q, r);
  }

  lemma {:induction false} ShiftModParts(t: nat, p: nat, b: nat, d: nat, q: nat, r: nat)
    requires p > 0 && b > 0 && d == p * b && d > 0 && t == b * q + r && r < b
    ensures t * p % d == p * r
  {
    TwoDigits(p, b, q, r, 0);
    assert t * p == p * t;
    DivModUnique(t * p, d, q, p * r);
  }

  /** A reading that goes on behind n bytes which came to sum. */
  function Accumulate(d: Decoded<nat>, sum: nat, n: nat): Decoded<nat> {
    match d
    case Got(v, m) => Got(sum + v, n + m)
    case OutOfRange(m) => OutOfRange(n + m)
    case NullCursor(m) => NullCursor(n + m)
  }

  /**
   * One turn of the loop of readUint: the byte's seven low bits are or-ed in above those read so
   * far. The outcome if this was the last byte, and else the bits so far.
   */
  method OrSeven(bits: nat, i: nat, sum: nat, n: nat, tmp: byte, ghost data: seq<byte>, ghost pos: nat)
    returns (last: bool, sum': nat)
    requires i < bits && sum < Pow2(i) && pos < |data| && tmp == data[pos]
    ensures last ==> Accumulate(DecodeVarint(bits, i, data[pos..]), sum, n) == Got(sum', n + 1)
    ensures !last ==> sum' < Pow2(i + 7)
    ensures !last ==> Accumulate(DecodeVarint(bits, i, data[pos..]), sum, n)
                      == Accumulate(DecodeVarint(bits, i + 7, data[pos + 1..]), sum', n + 1)
  {
    ghost var bs := data[pos..];
    assert bs[0] == tmp && bs[1..] == data[pos + 1..];
    last := tmp < 0x80;
    var low := if last then tmp else tmp - 0x80;
    sum' := BitOr(sum, ShiftLeft(bits, i, low));
    OrSevenIsSum(i, sum, LowBits(bits - i, low));
  }

  lemma NothingToRead(bits: nat, i: nat, sum: nat, n: nat, data: seq<byte>, pos: nat)
    requires i < bits && pos == |data|
    ensures Accumulate(DecodeVarint(bits, i, data[pos..]), sum, n) == OutOfRange(n)
  {
    assert data[pos..] == [];
  }

  lemma OrSevenIsSum(i: nat, sum: nat, low: nat)
    requires sum < Pow2(i) && low < 0x80
    ensures BitOr(sum, Pow2(i) * low) == sum + Pow2(i) * low < Pow2(i + 7)
  {
    OrIsSum(sum, i, low);
    Pow2Add(i, 7);
    WordSizes();
    MulMono(Pow2(i), low, 0x7f);
  }

  lemma FixedByte(order: ByteOrder, host: ByteOrder, bs: seq<byte>)
    ensures DecodeFixed(order, host, 1, bs) == if bs == [] then OutOfRange(0) else Got(bs[0], 1)
  {
    if bs != [] {
      assert bs[..1] == [bs[0]] == Reverse([bs[0]]);
      assert FromLittle([bs[0]]) == bs[0] + 256 * FromLittle([]);
    }
  }

  /** A varint decodes, from any longer input, to its value and uses exactly its own bytes. */
  lemma {:induction false} VarintRoundTripAt(bits: nat, i: nat, v: nat, rest: seq<byte>)
    requires i < bits && v < Pow2(bits - i)
    ensures DecodeVarint(bits, i, Varint(v) + rest) == Got(Pow2(i) * v, |Varint(v)|)
    decreases v
  {
    hide DecodeVarint, Varint, Pow2;
    if v < 0x80 {
      ShortRoundTrip(bits, i, v, rest);
    } else {
      SevenBitsLeft(bits - i, v);
      VarintRoundTripAt(bits, i + 7, v / 0x80, rest);
      VarintGoesOn(v, rest);
      DecodeGoesOn(bits, i, Varint(v) + rest);
      Pow2Add(i, 7);
      WordSizes();
      Regroup(Pow2(i), v % 0x80, v / 0x80);
    }
  }

  lemma {:induction false} ShortRoundTrip(bits: nat, i: nat, v: nat, rest: seq<byte>)
    requires i < bits && v < Pow2(bits - i) && v < 0x80
    ensures DecodeVarint(bits, i, Varint(v) + rest) == Got(Pow2(i) * v, |Varint(v)|)
  {
  }

  lemma {:induction false} VarintGoesOn(v: nat, rest: seq<byte>)
    requires v >= 0x80
    ensures (Varint(v) + rest)[0] == v % 0x80 + 0x80 && (Varint(v) + rest)[1..] == Varint(v / 0x80) + rest
    ensures |Varint(v)| == 1 + |Varint(v / 0x80)|
  {
  }

  /** One turn, when there are more bytes behind the first and seven bits of room for it. */
  lemma {:induction false} DecodeGoesOn(bits: nat, i: nat, bs: seq<byte>)
    requires i < bits && bs != [] && bs[0] >= 0x80 && DecodeVarint(bits, i + 7, bs[1..]).Got?
    ensures var d := DecodeVarint(bits, i + 7, bs[1..]);
            DecodeVarint(bits, i, bs) == Got(ShiftLeft(bits, i, bs[0] - 0x80) + d.value, d.used + 1)
  {
  }

  /** A number with more than seven bits leaves room for more bits after shifting seven out. */
  lemma SevenBitsLeft(n: nat, v: nat)
    requires 0x80 <= v < Pow2(n)
    ensures n > 7 && v / 0x80 < Pow2(n - 7)
  {
    WordSizes();
    if n <= 7 {
      Pow2Add(n, 7 - n);
      MulMono(Pow2(n), 1, Pow2(7 - n));
      assert false;
    }
    Pow2Add(7, n - 7);
  }

  lemma VarintRoundTrip(bits: nat, v: nat, rest: seq<byte>)
    requires bits > 0 && v < Pow2(bits)
    ensures DecodeVarint(bits, 0, Varint(v) + rest) == Got(v, |Varint(v)|)
  {
    hide DecodeVarint, Varint;
    VarintRoundTripAt(bits, 0, v, rest);
  }

  // ---------------------------------------------------------------- zigzag

  /**
   * EncodeZigzag32/64: negation, doubling and decrement all wrap in a word of the given size.
   * The most negative value negates to itself, doubles to zero and decrements to all ones.
   */
  function Zigzag(bits: nat, z: int): (u: nat)
    requires SignedRange(bits, z)
    ensures u < Pow2(bits)
  {
    if z < 0 then
      var magnitude := (-z) % Pow2(bits);
      (2 * magnitude - 1) % Pow2(bits)
    else
      2 * z % Pow2(bits)
  }

  /** DecodeZigzag32/64: (v >> 1) ^ -(v & 1); the xor with all ones is the complement. */
  function Unzigzag(bits: nat, u: nat): (z: int)
    requires bits > 0 && u < Pow2(bits)
    ensures SignedRange(bits, z)
  {
    ToSigned(bits, if u % 2 == 0 then u / 2 else Pow2(bits) - 1 - u / 2)
  }

  /** The exact values: no case is lost, the minimum included. */
  lemma {:induction false} ZigzagValue(bits: nat, z: int)
    requires SignedRange(bits, z)
    ensures Zigzag(bits, z) == if z < 0 then -2 * z - 1 else 2 * z
  {
    var h := Pow2(bits - 1);
    assert Pow2(bits) == 2 * h;
    if z < 0 {
      SmallMod(-z, 2 * h);
      SmallMod(-2 * z - 1, 2 * h);
    } else {
      SmallMod(2 * z, 2 * h);
    }
  }

  lemma {:induction false} ZigzagRoundTrip(bits: nat, z: int)
    requires SignedRange(bits, z)
    ensures Unzigzag(bits, Zigzag(bits, z)) == z
  {
    hide Zigzag;
    assert Pow2(bits) == 2 * Pow2(bits - 1);
    ZigzagValue(bits, z);
  }

  lemma {:induction false} UnzigzagRoundTrip(bits: nat, u: nat)
    requires bits > 0 && u < Pow2(bits)
    ensures Zigzag(bits, Unzigzag(bits, u)) == u
  {
    hide Zigzag;
    assert Pow2(bits) == 2 * Pow2(bits - 1);
    ZigzagValue(bits, Unzigzag(bits, u));
  }

  /** Smaller magnitudes get smaller codes, so short varints. */
  lemma {:induction false} ZigzagOrdersMagnitudes(bits: nat, y: int, z: int)
    requires SignedRange(bits, y) && SignedRange(bits, z)
    requires (if y < 0 then -y else y) < (if z < 0 then -z else z)
    ensures Zigzag(bits, y) < Zigzag(bits, z)
    ensures |Varint(Zigzag(bits, y))| <= |Varint(Zigzag(bits, z))|
  {
    ZigzagValue(bits, y);
    ZigzagValue(bits, z);
    var k := |Varint(Zigzag(bits, z))|;
    VarintIsShortest(Zigzag(bits, z), k);
    VarintIsShortest(Zigzag(bits, y), k);
  }

  // ---------------------------------------------------------------- length-prefixed strings

  /** A size_t stored in a word of w octets keeps its w low octets. */
  function Truncated(n: nat, w: nat): (u: nat)
    ensures u < Pow256(w)
  {
    FromLittleBound(ToLittle(n, w));
    FromLittle(ToLittle(n, w))
  }

  /** It stays itself exactly when it is small enough, and otherwise shrinks. */
  lemma TruncatedFits(n: nat, w: nat)
    ensures n < Pow256(w) ==> Truncated(n, w) == n
  {
    LittleRoundTrip(n, w);
    if n < Pow256(w) {
      SmallMod(n, Pow256(w));
    }
  }

  /** writeStringF*: the length is truncated to the prefix's type, then all bytes follow. */
  function EncodeText(order: ByteOrder, host: ByteOrder, prefix: nat, s: seq<byte>): (e: seq<byte>)
    ensures |e| == prefix + |s|
  {
    EncodeFixed(order, host, prefix, Truncated(|s|, prefix)) + s
  }

  /** read() of n bytes with `room` bytes between the cursor and the end of the nodes. */
  function DecodeRaw(n: nat, room: nat, bs: seq<byte>): (d: Decoded<seq<byte>>)
    ensures d.used <= |bs|
  {
    if n > |bs| then OutOfRange(0)
    else if room == 0 then NullCursor(0)
    else Got(bs[..n], n)
  }

  function DecodeText(order: ByteOrder, host: ByteOrder, prefix: nat, room: nat, bs: seq<byte>): (d: Decoded<seq<byte>>)
    requires prefix > 0
    ensures d.used <= |bs|
  {
    match DecodeFixed(order, host, prefix, bs)
    case OutOfRange(n) => OutOfRange(n)
    case NullCursor(n) => NullCursor(n)
    case Got(len, _) =>
      match DecodeRaw(len, if prefix < room then room - prefix else 0, bs[prefix..])
      case Got(s, n) => Got(s, prefix + n)
      case OutOfRange(n) => OutOfRange(prefix + n)
      case NullCursor(n) => NullCursor(prefix + n)
  }

  // ---------------------------------------------------------------- items

  /** What the writer of x appends. Items outside the C++ argument types have no writer. */
  function Encode(order: ByteOrder, host: ByteOrder, x: Item): (s: seq<byte>)
    ensures x.Valid() ==> |s| >= 1
  {
    if !x.Valid() then [] else
    match x
    case Fuint(w, u) => EncodeFixed(order, host, w, u)
    case Fint(w, i) => EncodeFixed(order, host, w, ToUnsigned(8 * w, i))
    case Uint(_, v) => Varint(v)
    case Int(b, z) => Varint(Zigzag(b, z))
    case Text(p, s) => EncodeText(order, host, p, s)
  }

  function DecodeFint(order: ByteOrder, host: ByteOrder, w: nat, bs: seq<byte>): (d: Decoded<int>)
    requires IsWidth(w)
    ensures d.used <= |bs| && !d.NullCursor?
    ensures d.Got? ==> SignedRange(8 * w, d.value)
  {
    Pow256IsPow2(w);
    match DecodeFixed(order, host, w, bs)
    case Got(u, n) => Got(ToSigned(8 * w, u), n)
    case OutOfRange(n) => OutOfRange(n)
    case NullCursor(n) => NullCursor(n)
  }

  function DecodeInt(bits: nat, bs: seq<byte>): (d: Decoded<int>)
    requires bits > 0
    ensures d.used <= |bs| && !d.NullCursor?
    ensures d.Got? ==> SignedRange(bits, d.value)
  {
    DecodeVarintInWord(bits, bs);
    match DecodeVarint(bits, 0, bs)
    case Got(v, n) => Got(Unzigzag(bits, v), n)
    case OutOfRange(n) => OutOfRange(n)
    case NullCursor(n) => NullCursor(n)
  }

  /** A varint read yields a word whatever the bytes are: nothing overflows. */
  lemma DecodeVarintInWord(bits: nat, bs: seq<byte>)
    ensures var d := DecodeVarint(bits, 0, bs); d.Got? ==> d.value < Pow2(bits)
  {
    if DecodeVarint(bits, 0, bs).Got? {
      var k := DecodeVarintMultiple(bits, 0, bs);
    }
  }

  /** The matching reader of each shape; `room` is what is left of the nodes after the cursor. */
  function Decode(order: ByteOrder, host: ByteOrder, sh: Shape, room: nat, bs: seq<byte>): (d: Decoded<Item>)
    ensures d.used <= |bs|
    ensures d.Got? ==> d.value.Valid()
  {
    if !sh.Valid() then OutOfRange(0) else
    match sh
    case SFuint(w) => (
      match DecodeFixed(order, host, w, bs)
      case Got(u, n) => Got(Fuint(w, u), n)
      case OutOfRange(n) => OutOfRange(n)
      case NullCursor(n) => NullCursor(n)
    )
    case SFint(w) => (
      match DecodeFint(order, host, w, bs)
      case Got(i, n) => Got(Fint(w, i), n)
      case OutOfRange(n) => OutOfRange(n)
      case NullCursor(n) => NullCursor(n)
    )
    case SUint(b) => (
      DecodeVarintInWord(b, bs);
      match DecodeVarint(b, 0, bs)
      case Got(v, n) => Got(Uint(b, v), n)
      case OutOfRange(n) => OutOfRange(n)
      case NullCursor(n) => NullCursor(n)
    )
    case SInt(b) => (
      match DecodeInt(b, bs)
      case Got(z, n) => Got(Int(b, z), n)
      case OutOfRange(n) => OutOfRange(n)
      case NullCursor(n) => NullCursor(n)
    )
    case SText(p) => (
      match DecodeText(order, host, p, room, bs)
      case Got(s, n) => Got(Text(p, s), n)
      case OutOfRange(n) => OutOfRange(n)
      case NullCursor(n) => NullCursor(n)
    )
  }

  /** A decoding gives x back from its own n bytes if ok holds, and never does otherwise. */
  predicate ReadsBack<T(==)>(d: Decoded<T>, x: T, n: nat, ok: bool) {
    if ok then d == Got(x, n) else d.Got? ==> d.value != x
  }

  /** A string whose prefix fills the last node: only an empty one can be written like that. */
  predicate NoRoomForText(x: Item, room: nat) {
    x.Text? && x.prefix >= room
  }

  /**
   * An item reads back as itself exactly when its length prefix did not overflow and it is not a
   * string with no node left after its prefix.
   */
  lemma {:induction false} ItemRoundTrip(order: ByteOrder, host: ByteOrder, x: Item, room: nat, rest: seq<byte>)
    requires x.Valid()
    ensures var e := Encode(order, host, x);
            ReadsBack(Decode(order, host, x.Shape(), room, e + rest), x, |e|, x.Fits() && !NoRoomForText(x, room))
  {
    if x.Text? {
      TextRoundTrip(order, host, x.prefix, x.s, room, rest);
    } else if x.Fuint? || x.Fint? {
      FixedItemRoundTrip(order, host, x, room, rest);
    } else {
      VarintItemRoundTrip(order, host, x, room, rest);
    }
  }

  lemma {:induction false} FixedItemRoundTrip(order: ByteOrder, host: ByteOrder, x: Item, room: nat, rest: seq<byte>)
    requires x.Valid() && (x.Fuint? || x.Fint?)
    ensures var e := Encode(order, host, x); Decode(order, host, x.Shape(), room, e + rest) == Got(x, |e|)
  {
    match x
    case Fuint(w, u) => FixedRoundTrip(order, host, w, u, rest);
    case Fint(w, i) => FintRoundTrip(order, host, w, i, rest);
  }

  lemma {:induction false} VarintItemRoundTrip(order: ByteOrder, host: ByteOrder, x: Item, room: nat, rest: seq<byte>)
    requires x.Valid() && (x.Uint? || x.Int?)
    ensures var e := Encode(order, host, x); Decode(order, host, x.Shape(), room, e + rest) == Got(x, |e|)
  {
    match x
    case Uint(b, v) => VarintRoundTrip(b, v, rest);
    case Int(b, z) => IntRoundTrip(b, z, rest);
  }

  lemma {:induction false} FintRoundTrip(order: ByteOrder, host: ByteOrder, w: nat, i: int, rest: seq<byte>)
    requires IsWidth(w) && SignedRange(8 * w, i)
    ensures ToUnsigned(8 * w, i) < Pow256(w)
    ensures DecodeFint(order, host, w, EncodeFixed(order, host, w, ToUnsigned(8 * w, i)) + rest) == Got(i, w)
  {
    Pow256IsPow2(w);
    FixedRoundTrip(order, host, w, ToUnsigned(8 * w, i), rest);
  }

  lemma {:induction false} IntRoundTrip(b: nat, z: int, rest: seq<byte>)
    requires SignedRange(b, z)
    ensures DecodeInt(b, Varint(Zigzag(b, z)) + rest) == Got(z, |Varint(Zigzag(b, z))|)
  {
    VarintRoundTrip(b, Zigzag(b, z), rest);
    ZigzagRoundTrip(b, z);
  }

  lemma {:induction false} TextRoundTrip(order: ByteOrder, host: ByteOrder, p: nat, s: seq<byte>, room: nat,
                                         rest: seq<byte>)
    requires p > 0
    ensures var d := DecodeText(order, host, p, room, EncodeText(order, host, p, s) + rest);
            ReadsBack(d, s, p + |s|, |s| < Pow256(p) && p < room)
  {
    hide DecodeFixed, DecodeText, EncodeFixed, Truncated;
    var len := Truncated(|s|, p);
    var f := EncodeFixed(order, host, p, len);
    var more := s + rest;
    assert EncodeText(order, host, p, s) + rest == f + more;
    FixedRoundTrip(order, host, p, len, more);
    TextAfterPrefix(order, host, p, room, f, len, more);
    TruncatedFits(|s|, p);
    assert more[..|s|] == s;
  }

  /** Once the prefix has been read as len, the string is the next len bytes. */
  lemma TextAfterPrefix(order: ByteOrder, host: ByteOrder, p: nat, room: nat, f: seq<byte>, len: nat, more: seq<byte>)
    requires p > 0 && |f| == p
    requires DecodeFixed(order, host, p, f + more) == Got(len, p)
    ensures var d := DecodeText(order, host, p, room, f + more);
            && (d.Got? <==> len <= |more| && p < room)
            && (d.Got? ==> d == Got(more[..len], p + len))
  {
    assert (f + more)[p..] == more;
  }

  // ---------------------------------------------------------------- lists

  type Writer<!T> = T -> seq<byte>
  type Reader<!S, +T> = (S, nat, seq<byte>) -> Decoded<T>

  function EncodeAll<T>(enc: Writer<T>, xs: seq<T>): seq<byte> {
    if xs == [] then [] else enc(xs[0]) + EncodeAll(enc, xs[1..])
  }

  lemma {:induction false} EncodeAllLast<T>(enc: Writer<T>, xs: seq<T>, x: T)
    ensures EncodeAll(enc, xs + [x]) == EncodeAll(enc, xs) + enc(x)
    decreases |xs|
  {
    if xs == [] {
      assert EncodeAll(enc, [x]) == enc(x) + EncodeAll(enc, []);
    } else {
      EncodeAllLast(enc, xs[1..], x);
      assert (xs + [x])[1..] == xs[1..] + [x];
    }
  }

  lemma EncodeAllNext<T>(enc: Writer<T>, xs: seq<T>, i: nat)
    requires i < |xs|
    ensures EncodeAll(enc, xs[..i + 1]) == EncodeAll(enc, xs[..i]) + enc(xs[i])
    ensures i + 1 == |xs| ==> xs[..i + 1] == xs
  {
    EncodeAllLast(enc, xs[..i], xs[i]);
    assert xs[..i + 1] == xs[..i] + [xs[i]];
  }

  /** The result of a list read from that of its first item and that of the others. */
  function Prepend<T>(d: Decoded<T>, tail: Decoded<seq<T>>): (r: Decoded<seq<T>>)
    ensures r.used == d.used + if d.Got? then tail.used else 0
  {
    match d
    case OutOfRange(n) => OutOfRange(n)
    case NullCursor(n) => NullCursor(n)
    case Got(x, n) =>
      match tail
      case OutOfRange(m) => OutOfRange(n + m)
      case NullCursor(m) => NullCursor(n + m)
      case Got(xs, m) => Got([x] + xs, n + m)
  }

  function Less(a: nat, b: nat): nat {
    if b <= a then a - b else 0
  }

  function DecodeAll<S, T>(dec: Reader<S, T>, shs: seq<S>, room: nat, bs: seq<byte>): Decoded<seq<T>> {
    if shs == [] then Got([], 0)
    else
      var d := dec(shs[0], room, bs);
      var rest := if d.used <= |bs| then bs[d.used..] else [];
      Prepend(d, DecodeAll(dec, shs[1..], Less(room, d.used), rest))
  }

  lemma DecodeAllNothing<S, T>(dec: Reader<S, T>, room: nat, bs: seq<byte>)
    ensures DecodeAll(dec, [], room, bs) == Got([], 0)
  {
  }

  /** The first read and what follows it, as positions in the array. */
  lemma DecodeAllNext<S, T>(dec: Reader<S, T>, shs: seq<S>, room: nat, data: seq<byte>, pos: nat, d: Decoded<T>)
    requires shs != [] && pos <= |data| && d == dec(shs[0], room, data[pos..])
    requires d.used <= |data| - pos <= room
    ensures DecodeAll(dec, shs, room, data[pos..])
         == Prepend(d, DecodeAll(dec, shs[1..], room - d.used, data[pos + d.used..]))
  {
    assert data[pos..][d.used..] == data[pos + d.used..];
  }

  /** Each item in turn meets its own condition at the room that is left when its turn comes. */
  predicate AllOk<T>(enc: Writer<T>, ok: (T, nat) -> bool, xs: seq<T>, room: nat) {
    xs == [] || (ok(xs[0], room) && AllOk(enc, ok, xs[1..], Less(room, |enc(xs[0])|)))
  }

  predicate OneReadsBack<S, T(==)>(enc: Writer<T>, dec: Reader<S, T>, shape: T -> S, ok: (T, nat) -> bool, x: T,
                              room: nat, rest: seq<byte>) {
    ReadsBack(dec(shape(x), room, enc(x) + rest), x, |enc(x)|, ok(x, room))
  }

  function ShapesOf<S, T>(shape: T -> S, xs: seq<T>): (r: seq<S>)
    ensures |r| == |xs|
  {
    seq(|xs|, i requires 0 <= i < |xs| => shape(xs[i]))
  }

  /** If single items round-trip exactly under a condition, so do lists, under the conditions in turn. */
  lemma {:induction false} ListReadsBack<S, T(!new)>(enc: Writer<T>, dec: Reader<S, T>, shape: T -> S,
                                                     valid: T -> bool, ok: (T, nat) -> bool,
                                                     xs: seq<T>, room: nat, rest: seq<byte>)
    requires forall x, room, rest :: valid(x) ==> OneReadsBack(enc, dec, shape, ok, x, room, rest)
    requires forall x <- xs :: valid(x)
    ensures ReadsBack(DecodeAll(dec, ShapesOf(shape, xs), room, EncodeAll(enc, xs) + rest), xs, |EncodeAll(enc, xs)|,
                      AllOk(enc, ok, xs, room))
    decreases |xs|
  {
    if xs != [] {
      var x, tail := xs[0], xs[1..];
      var e, t := enc(x), EncodeAll(enc, tail);
      assert OneReadsBack(enc, dec, shape, ok, x, room, t + rest);
      assert EncodeAll(enc, xs) + rest == e + (t + rest);
      assert ShapesOf(shape, xs)[1..] == ShapesOf(shape, tail);
      assert xs == [x] + tail;
      if ok(x, room) {
        assert (e + (t + rest))[|e|..] == t + rest;
        ListReadsBack(enc, dec, shape, valid, ok, tail, Less(room, |e|), rest);
      }
    }
  }

  /** enc is Encode for these byte orders. */
  ghost predicate IsItemWriter(enc: Writer<Item>, order: ByteOrder, host: ByteOrder) {
    forall x {:trigger Encode(order, host, x)} :: enc(x) == Encode(order, host, x)
  }

  /** dec is Decode for these byte orders. */
  ghost predicate IsItemReader(dec: Reader<Shape, Item>, order: ByteOrder, host: ByteOrder) {
    forall sh, room, bs {:trigger Decode(order, host, sh, room, bs)} ::
      dec(sh, room, bs) == Decode(order, host, sh, room, bs)
  }

  function Shapes(xs: seq<Item>): seq<Shape> {
    ShapesOf((x: Item) => x.Shape(), xs)
  }

  lemma ShapesValid(xs: seq<Item>)
    requires forall i :: 0 <= i < |xs| ==> xs[i].Valid()
    ensures |Shapes(xs)| == |xs| && forall i :: 0 <= i < |xs| ==> Shapes(xs)[i].Valid()
  {
  }

  /**
   * The condition of the round trip over a whole list: no length prefix overflows, and the list does not end with an
   * empty string whose prefix fills the last node.
   */
  predicate Readable(enc: Writer<Item>, xs: seq<Item>, room: nat) {
    && (forall x <- xs :: x.Fits())
    && !(xs != [] && xs[|xs| - 1].Text? && xs[|xs| - 1].s == [] && |EncodeAll(enc, xs)| == room)
  }

  /** Two bytes of nodes, filled by the prefix of an empty string: reading it back dereferences the null cursor. */
  lemma {:induction false} EmptyStringIsLost(order: ByteOrder, host: ByteOrder)
    ensures Item.Text(2, []).Valid() && Item.Text(2, []).Fits() && |EncodeText(order, host, 2, [])| == 2
    ensures DecodeText(order, host, 2, 2, EncodeText(order, host, 2, [])) == NullCursor(2)
  {
    var f := EncodeFixed(order, host, 2, 0);
    assert Truncated(0, 2) == 0 && EncodeText(order, host, 2, []) == f + [];
    FixedRoundTrip(order, host, 2, 0, []);
  }

  /**
   * Reading a written list with the matching readers gives the list back, using exactly its bytes,
   * when it is Readable, and never otherwise.
   */
  lemma ListRoundTrip(order: ByteOrder, host: ByteOrder, enc: Writer<Item>, dec: Reader<Shape, Item>,
                      xs: seq<Item>, room: nat, rest: seq<byte>)
    requires IsItemWriter(enc, order, host) && IsItemReader(dec, order, host)
    requires forall x <- xs :: x.Valid()
    requires |EncodeAll(enc, xs)| + |rest| <= room
    ensures var e := EncodeAll(enc, xs);
            ReadsBack(DecodeAll(dec, Shapes(xs), room, e + rest), xs, |e|, Readable(enc, xs, room))
  {
    var shape := (x: Item) => x.Shape();
    var valid := (x: Item) => x.Valid();
    var ok := (x: Item, r: nat) => x.Fits() && !NoRoomForText(x, r);
    forall x: Item, r: nat, bs: seq<byte> | valid(x) ensures OneReadsBack(enc, dec, shape, ok, x, r, bs) {
      ItemRoundTrip(order, host, x, r, bs);
    }
    ListReadsBack(enc, dec, shape, valid, ok, xs, room, rest);
    forall x: Item | x.Valid() ensures |enc(x)| >= if x.Text? then x.prefix + |x.s| else 1 {
      assert enc(x) == Encode(order, host, x);
    }
    forall x: Item | x.Valid() && x.Text? ensures |enc(x)| == x.prefix + |x.s| {
      assert enc(x) == Encode(order, host, x);
    }
    AllOkIsReadable(enc, ok, xs, room);
  }

  lemma {:induction false} FitsSplits(xs: seq<Item>)
    requires xs != []
    ensures (forall x <- xs :: x.Fits()) <==> xs[0].Fits() && forall x <- xs[1..] :: x.Fits()
  {
    assert xs == [xs[0]] + xs[1..];
  }

  lemma {:induction false} EncodeAllFirst(enc: Writer<Item>, xs: seq<Item>)
    ensures EncodeAll(enc, xs) == if xs == [] then [] else enc(xs[0]) + EncodeAll(enc, xs[1..])
  {
  }

  lemma {:induction false} AllOkIsReadable(enc: Writer<Item>, ok: (Item, nat) -> bool, xs: seq<Item>, room: nat)
    requires forall x <- xs :: x.Valid()
    requires forall x: Item :: x.Valid() ==> |enc(x)| >= if x.Text? then x.prefix + |x.s| else 1
    requires forall x: Item :: x.Valid() && x.Text? ==> |enc(x)| == x.prefix + |x.s|
    requires forall x, r :: ok(x, r) <==> x.Fits() && !NoRoomForText(x, r)
    requires |EncodeAll(enc, xs)| <= room
    ensures AllOk(enc, ok, xs, room) <==> Readable(enc, xs, room)
    decreases |xs|
  {
    hide EncodeAll;
    EncodeAllFirst(enc, xs);
    if xs != [] {
      var tail := xs[1..];
      EncodeAllFirst(enc, tail);
      AllOkIsReadable(enc, ok, tail, room - |enc(xs[0])|);
      assert AllOk(enc, ok, xs, room) == (ok(xs[0], room) && AllOk(enc, ok, tail, room - |enc(xs[0])|));
      if tail != [] {
        assert xs[|xs| - 1] == tail[|tail| - 1];
      }
      FitsSplits(xs);
    }
  }
}
