/** Machine words as natural numbers, and the byte-order conversions of yuan/endian.h. */
module Words {

  /** One octet of memory. */
  type byte = x: int | 0 <= x < 256

  /** The two values of YUAN_BYTE_ORDER and of ByteArray's m_endian. */
  datatype ByteOrder = LittleEndian | BigEndian

  const U32: nat := 0x1_0000_0000
  const U64: nat := 0x1_0000_0000_0000_0000

  const INT_LIMIT: nat := 0x8000_0000
  const LONG_LIMIT: nat := 0x8000_0000_0000_0000

  /** The digits of hexadecimal numbers, in the order of their values. */
  const LOWER_HEX := "0123456789abcdef"
  const UPPER_HEX := "0123456789ABCDEF"

  /** n in these digits, without leading zeros. */
  function HexText(digits: string, n: nat): (s: string)
    requires |digits| == 16
    ensures s != [] && forall i :: 0 <= i < |s| ==> s[i] in digits
  {
    if n < 16 then [digits[n]] else HexText(digits, n / 16) + [digits[n % 16]]
  }

  /** Conversion of a wider number to int: the low 32 bits in two's complement. */
  function CastToInt(u: int): int {
    var low := u % U32;
    if low < INT_LIMIT then low else low - U32
  }

  /** int64_t from uint64_t. */
  function CastToLong(u: int): int {
    var low := u % U64;
    if low < LONG_LIMIT then low else low - U64
  }

  /** The one int with the same low 32 bits. */
  lemma CastToIntIs(u: int)
    ensures 2 * INT_LIMIT == U32
    ensures 0 - INT_LIMIT <= CastToInt(u) < INT_LIMIT && (CastToInt(u) - u) % U32 == 0
  {
  }

  /** The one int64_t with the same 64 bits. */
  lemma CastToLongIs(u: int)
    ensures 2 * LONG_LIMIT == U64
    ensures 0 - LONG_LIMIT <= CastToLong(u) < LONG_LIMIT && (CastToLong(u) - u) % U64 == 0
    ensures 0 <= u < LONG_LIMIT ==> CastToLong(u) == u
    ensures LONG_LIMIT <= u < U64 ==> CastToLong(u) == u - U64 < 0
  {
  }

  function Pow2(n: nat): (p: nat)
    ensures p >= 1
  {
    if n == 0 then 1 else 2 * Pow2(n - 1)
  }

  /** 256 to the power n: the number of values a word of n octets can hold. */
  function Pow256(n: nat): (p: nat)
    ensures p >= 1
  {
    if n == 0 then 1 else 256 * Pow256(n - 1)
  }

  lemma {:induction false} Pow2Add(m: nat, n: nat)
    ensures Pow2(m + n) == Pow2(m) * Pow2(n)
  {
    if m != 0 {
      Pow2Add(m - 1, n);
      assert Pow2(m + n) == 2 * Pow2(m - 1 + n);
      assert 2 * (Pow2(m - 1) * Pow2(n)) == (2 * Pow2(m - 1)) * Pow2(n);
    }
  }

  lemma {:induction false} Pow256IsPow2(n: nat)
    ensures Pow256(n) == Pow2(8 * n)
  {
    if n != 0 {
      Pow256IsPow2(n - 1);
      Pow2Add(8, 8 * (n - 1));
      assert Pow2(8) == 256 by {
        assert Pow2(4) == 16;
        Pow2Add(4, 4);
      }
    }
  }

  lemma WordSizes()
    ensures Pow2(7) == 128 && Pow2(8) == 256 && Pow2(16) == 0x1_0000 && Pow2(32) == U32 && Pow2(64) == U64
    ensures Pow256(1) == 256 && Pow256(2) == 0x1_0000 && Pow256(4) == U32 && Pow256(8) == U64
  {
    assert Pow2(4) == 16;
    Pow2Add(4, 3);
    Pow2Add(4, 4);
    Pow2Add(8, 8);
    Pow2Add(16, 16);
    Pow2Add(32, 32);
    Pow256IsPow2(1);
    Pow256IsPow2(2);
    Pow256IsPow2(4);
    Pow256IsPow2(8);
  }

  /** The w low octets of v, least significant first. */
  function ToLittle(v: nat, w: nat): (s: seq<byte>)
    ensures |s| == w
  {
    if w == 0 then [] else [v % 256] + ToLittle(v / 256, w - 1)
  }

  /** The number whose octets, least significant first, are s. */
  function FromLittle(s: seq<byte>): nat
  {
    if s == [] then 0 else s[0] + 256 * FromLittle(s[1..])
  }

  /** The number whose octets, most significant first, are s (network order). */
  function FromBig(s: seq<byte>): nat
  {
    if s == [] then 0 else 256 * FromBig(s[..|s| - 1]) + s[|s| - 1]
  }

  function Reverse<T>(s: seq<T>): (r: seq<T>)
    ensures |r| == |s|
    ensures forall i :: 0 <= i < |s| ==> r[i] == s[|s| - 1 - i]
  {
    if s == [] then [] else Reverse(s[1..]) + [s[0]]
  }

  lemma ReverseReverse<T>(s: seq<T>)
    ensures Reverse(Reverse(s)) == s
  {
  }

  lemma {:induction false} FromLittleBound(s: seq<byte>)
    ensures FromLittle(s) < Pow256(|s|)
  {
    if s != [] {
      FromLittleBound(s[1..]);
    }
  }

  lemma {:induction false} LittleRoundTrip(v: nat, w: nat)
    ensures FromLittle(ToLittle(v, w)) == v % Pow256(w)
  {
    if w != 0 {
      LittleRoundTrip(v / 256, w - 1);
      ModStep(v, 256, Pow256(w - 1), Pow256(w));
      assert ToLittle(v, w)[1..] == ToLittle(v / 256, w - 1);
    }
  }

  /** v mod (a*b) splits into the low digit and the digits above it. */
  lemma {:induction false} ModStep(v: nat, a: nat, b: nat, d: nat)
    requires a > 0 && b > 0 && d > 0 && d == a * b
    ensures v % d == v % a + a * ((v / a) % b)
    ensures v / d == v / a / b
  {
    var q, r := v / a, v % a;
    var q', r' := q / b, q % b;
    DivModDef(v, a);
    DivModDef(q, b);
    ModStepParts(v, a, b, d, q, r, q', r');
  }

  lemma DivModDef(v: nat, d: nat)
    requires d > 0
    ensures v == d * (v / d) + v % d
  {
  }

  lemma {:induction false} ModStepParts(v: nat, a: nat, b: nat, d: nat, q: nat, r: nat, q': nat, r': nat)
    requires d == a * b && v == a * q + r && r < a && q == b * q' + r' && r' < b
    ensures d > 0 && v % d == r + a * r' && v / d == q'
  {
    TwoDigits(a, b, q', r', r);
    DivModUnique(v, d, q', a * r' + r);
  }

  lemma {:induction false} TwoDigits(a: nat, b: nat, q: nat, d1: nat, d0: nat)
    requires d0 < a && d1 < b
    ensures a * (b * q + d1) + d0 == (a * b) * q + (a * d1 + d0)
    ensures a * d1 + d0 < a * b
  {
    MulMono(a, d1, b - 1);
    assert a * (b - 1) == a * b - a;
    assert a * (b * q + d1) == (a * b) * q + a * d1;
  }

  lemma {:induction false} DivModUnique(v: nat, d: nat, q: nat, r: nat)
    requires d > 0 && r < d && v == d * q + r
    ensures v / d == q && v % d == r
  {
    var q1, r1 := v / d, v % d;
    assert v == d * q1 + r1;
    NoMultipleBetween(d, q - q1, r1 - r) by {
      assert d * (q - q1) == d * q - d * q1;
    }
  }

  lemma NoMultipleBetween(d: nat, k: int, r: int)
    requires 0 - d < r < d && d * k == r
    ensures k == 0
  {
    if k >= 1 {
      MulMono(d, 1, k);
    } else if k <= -1 {
      MulMono(d, k, -1);
    }
  }

  lemma MulMono(d: nat, i: int, j: int)
    requires i <= j
    ensures d * i <= d * j
  {
  }

  lemma SmallMod(v: nat, d: nat)
    requires v < d
    ensures v % d == v && v / d == 0
  {
    DivModUnique(v, d, 0, v);
  }

  lemma {:induction false} LittleOfBytes(s: seq<byte>)
    ensures ToLittle(FromLittle(s), |s|) == s
  {
    if s != [] {
      LittleOfBytes(s[1..]);
      DivModUnique(FromLittle(s), 256, FromLittle(s[1..]), s[0]);
    }
  }

  /** bswap_16, bswap_32 and bswap_64: the same octets in the opposite significance. */
  function ByteSwap(v: nat, w: nat): (u: nat)
    ensures u < Pow256(w)
  {
    FromLittleBound(Reverse(ToLittle(v, w)));
    FromLittle(Reverse(ToLittle(v, w)))
  }

  /** The shift-and-add form: the lowest octet moves to the top, the rest is swapped below it. */
  lemma ByteSwapShifts(v: nat, w: nat)
    requires w > 0
    ensures ByteSwap(v, w) == ByteSwap(v / 256, w - 1) + Pow256(w - 1) * (v % 256)
  {
    var s, t := ToLittle(v, w), ToLittle(v / 256, w - 1);
    assert s[1..] == t;
    assert Reverse(s) == Reverse(t) + [s[0]];
    FromLittleAppend(Reverse(t), s[0]);
  }

  lemma {:induction false} FromLittleAppend(s: seq<byte>, b: byte)
    ensures FromLittle(s + [b]) == FromLittle(s) + Pow256(|s|) * b
  {
    if s == [] {
      assert s + [b] == [b];
      assert FromLittle([b]) == b + 256 * FromLittle([]);
    } else {
      FromLittleAppend(s[1..], b);
      assert (s + [b])[1..] == s[1..] + [b];
      assert 256 * (Pow256(|s| - 1) * b) == Pow256(|s|) * b;
    }
  }

  /** Swapping a word reverses its octets, whatever they are. */
  lemma ByteSwapReverses(v: nat, w: nat)
    ensures ToLittle(ByteSwap(v, w), w) == Reverse(ToLittle(v, w))
  {
    LittleOfBytes(Reverse(ToLittle(v, w)));
  }

  lemma ByteSwapInvolution(v: nat, w: nat)
    requires v < Pow256(w)
    ensures ByteSwap(ByteSwap(v, w), w) == v
  {
    ByteSwapReverses(v, w);
    ByteSwapReverses(ByteSwap(v, w), w);
    ReverseReverse(ToLittle(v, w));
    LittleRoundTrip(v, w);
    LittleRoundTrip(ByteSwap(ByteSwap(v, w), w), w);
    SmallMod(v, Pow256(w));
    SmallMod(ByteSwap(ByteSwap(v, w), w), Pow256(w));
  }

  /** The octets a word occupies in the memory of a host of the given order. */
  function Native(host: ByteOrder, v: nat, w: nat): (s: seq<byte>)
    ensures |s| == w
  {
    if host.LittleEndian? then ToLittle(v, w) else Reverse(ToLittle(v, w))
  }

  /** The word a host of the given order loads from these octets. */
  function FromNative(host: ByteOrder, s: seq<byte>): nat
  {
    if host.LittleEndian? then FromLittle(s) else FromLittle(Reverse(s))
  }

  lemma NativeRoundTrip(host: ByteOrder, v: nat, w: nat)
    requires v < Pow256(w)
    ensures FromNative(host, Native(host, v, w)) == v
  {
    LittleRoundTrip(v, w);
    SmallMod(v, Pow256(w));
    ReverseReverse(ToLittle(v, w));
  }

  lemma {:induction false} FromBigReverses(s: seq<byte>)
    ensures FromBig(s) == FromLittle(Reverse(s))
  {
    if s != [] {
      var n := |s| - 1;
      FromBigReverses(s[..n]);
      assert Reverse(s) == [s[n]] + Reverse(s[..n]);
    }
  }

  /** Swapping then loading natively is loading in the opposite order. */
  lemma ByteSwapOfNative(host: ByteOrder, s: seq<byte>)
    ensures ByteSwap(FromNative(host, s), |s|) == FromNative(if host.LittleEndian? then BigEndian else LittleEndian, s)
  {
    var t := if host.LittleEndian? then s else Reverse(s);
    LittleOfBytes(t);
    ByteSwapReverses(FromLittle(t), |s|);
    ReverseReverse(s);
  }

  /** The n low bits of t. */
  function LowBits(n: nat, t: nat): (r: nat)
    ensures r < Pow2(n) && r <= t
    ensures t < Pow2(n) ==> r == t
  {
    if n == 0 then 0 else t % 2 + 2 * LowBits(n - 1, t / 2)
  }

  lemma {:induction false} LowBitsIsMod(n: nat, t: nat)
    ensures LowBits(n, t) == t % Pow2(n)
  {
    if n != 0 {
      LowBitsIsMod(n - 1, t / 2);
      ModStep(t, 2, Pow2(n - 1), Pow2(n));
    }
  }

  /** a | b, bit by bit. */
  function BitOr(a: nat, b: nat): nat
    decreases a + b
  {
    if a == 0 && b == 0 then 0
    else (if a % 2 == 1 || b % 2 == 1 then 1 else 0) + 2 * BitOr(a / 2, b / 2)
  }

  /** a & b, bit by bit. */
  function BitAnd(a: nat, b: nat): nat
    decreases a + b
  {
    if a == 0 && b == 0 then 0
    else (if a % 2 == 1 && b % 2 == 1 then 1 else 0) + 2 * BitAnd(a / 2, b / 2)
  }

  lemma {:induction false} OrZero(b: nat)
    ensures BitOr(0, b) == b
  {
    if b != 0 {
      OrZero(b / 2);
    }
  }

  /** Or-ing in bits above all those that are set is adding them. */
  lemma {:induction false} OrIsSum(a: nat, i: nat, k: nat)
    requires a < Pow2(i)
    ensures BitOr(a, Pow2(i) * k) == a + Pow2(i) * k
  {
    hide BitOr;
    if i == 0 {
      OrZero(k);
    } else {
      TwiceHalf(i, k);
      OrIsSum(a / 2, i - 1, k);
      OrHalves(a, Pow2(i - 1) * k);
    }
  }

  lemma {:induction false} TwiceHalf(i: nat, k: nat)
    requires i > 0
    ensures Pow2(i) * k == 2 * (Pow2(i - 1) * k)
  {
    MulIsAssociative(2, Pow2(i - 1), k);
  }

  lemma {:induction false} MulIsAssociative(a: int, b: int, c: int)
    ensures a * b * c == a * (b * c)
  {
  }

  lemma OrHalves(a: nat, half: nat)
    ensures BitOr(a, 2 * half) == a % 2 + 2 * BitOr(a / 2, half)
  {
  }
}
