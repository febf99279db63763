/** yuan/address.cc: network, broadcast and mask arithmetic on IPv4 words and IPv6 bytes. */
module Addresses {
  import opened Bits
  import opened Options
  import opened Words

  /**
   * CreateMask on a type of `width` bits: the host part all ones. Undefined in the source for 0 bits of a 32-bit
   * type.
   */
  function CreateMask(width: nat, bits: nat): nat
    requires bits <= width
  {
    Ones(width - bits)
  }

  /** byteswapOnLittleEndian */
  function SwapOnLittle(host: ByteOrder, v: nat, w: nat): nat {
    if host.LittleEndian? then ByteSwap(v, w) else v
  }

  lemma {:induction false} SwapOnLittleTwice(host: ByteOrder, v: nat, w: nat)
    requires v < Pow256(w)
    ensures SwapOnLittle(host, v, w) < Pow256(w) && SwapOnLittle(host, SwapOnLittle(host, v, w), w) == v
  {
    ByteSwapInvolution(v, w);
  }

  /** It is the number that a word's memory holds in network order. */
  lemma {:induction false} SwapIsNetworkOrder(host: ByteOrder, v: nat, w: nat)
    requires v < Pow256(w)
    ensures SwapOnLittle(host, v, w) == FromBig(Native(host, v, w))
  {
    FromBigReverses(Native(host, v, w));
    ReverseReverse(ToLittle(v, w));
    ByteSwapReverses(v, w);
    NativeRoundTrip(LittleEndian, v, w);
  }

  // ---------------------------------------------------------------- IPv4

  /** broadcastAddress, on s_addr; no result for a prefix over 32. */
  function BroadcastV4(host: ByteOrder, sAddr: nat, prefix: nat): Option<nat>
    requires prefix >= 1
  {
    if prefix > 32 then None else Some(BitOr(sAddr, SwapOnLittle(host, CreateMask(32, prefix), 4)))
  }

  function NetworkV4(host: ByteOrder, sAddr: nat, prefix: nat): Option<nat>
    requires prefix >= 1
  {
    if prefix > 32 then None else Some(AndNot(sAddr, SwapOnLittle(host, CreateMask(32, prefix), 4)))
  }

  /** ~byteswapOnLittleEndian(mask) in a word of `width` bits. */
  function MaskWord(host: ByteOrder, width: nat, w: nat, prefix: nat): (m: nat)
    requires prefix <= width && Pow256(w) == Pow2(width)
  {
    MaskFits(host, width, w, prefix);
    Ones(width) - SwapOnLittle(host, CreateMask(width, prefix), w)
  }

  lemma {:induction false} MaskFits(host: ByteOrder, width: nat, w: nat, prefix: nat)
    requires prefix <= width && Pow256(w) == Pow2(width)
    ensures CreateMask(width, prefix) < Pow2(width) && SwapOnLittle(host, CreateMask(width, prefix), w) < Pow2(width)
  {
    Pow2Add(width - prefix, prefix);
    MulMono(Pow2(width - prefix), 1, Pow2(prefix));
  }

  function SubnetMaskV4(host: ByteOrder, prefix: nat): Option<nat>
    requires prefix >= 1
  {
    V4Sizes();
    if prefix > 32 then None else Some(MaskWord(host, 32, 4, prefix))
  }

  /** For a word of any width: masking clears the host part of a number, and or-ing fills it. */
  lemma {:induction false} WordArithmetic(host: ByteOrder, sAddr: nat, width: nat, w: nat, prefix: nat)
    requires prefix <= width && Pow256(w) == Pow2(width) && sAddr < Pow256(w)
    ensures var a, size := SwapOnLittle(host, sAddr, w), Pow2(width - prefix);
            var swapped := SwapOnLittle(host, CreateMask(width, prefix), w);
            && SwapOnLittle(host, AndNot(sAddr, swapped), w) == a - a % size
            && SwapOnLittle(host, BitOr(sAddr, swapped), w) == a - a % size + size - 1
  {
    var mask := CreateMask(width, prefix);
    MaskFits(host, width, w, prefix);
    SwapOnLittleTwice(host, mask, w);
    SwapAndNot(sAddr, SwapOnLittle(host, mask, w), w);
    SwapOr(sAddr, SwapOnLittle(host, mask, w), w);
    AndNotOnes(SwapOnLittle(host, sAddr, w), width - prefix);
    OrOnes(SwapOnLittle(host, sAddr, w), width - prefix);
  }

  lemma {:induction false} V4Sizes()
    ensures Pow256(4) == Pow2(32) == U32
  {
    WordSizes();
  }

  /**
   * As numbers the network address is a with its 32 - prefix low bits cleared, and the broadcast address has them
   * set, whatever the byte order of the host.
   */
  lemma {:induction false} V4Arithmetic(host: ByteOrder, sAddr: nat, prefix: nat)
    requires sAddr < U32 && 1 <= prefix <= 32
    ensures var a, size := SwapOnLittle(host, sAddr, 4), Pow2(32 - prefix);
            && SwapOnLittle(host, NetworkV4(host, sAddr, prefix).value, 4) == BlockStart(a, size)
            && SwapOnLittle(host, BroadcastV4(host, sAddr, prefix).value, 4) == BlockStart(a, size) + size - 1
  {
    V4Sizes();
    WordArithmetic(host, sAddr, 32, 4, prefix);
  }

  /** Or-ing two numbers of n bits gives one. */
  lemma {:induction false} OrBelow(a: nat, b: nat, n: nat)
    requires a < Pow2(n) && b < Pow2(n)
    ensures BitOr(a, b) < Pow2(n)
  {
    OrHigh(a, b, n);
    HighBitsIsDiv(n, a);
    HighBitsIsDiv(n, b);
    HighBitsIsDiv(n, BitOr(a, b));
    SmallMod(a, Pow2(n));
    SmallMod(b, Pow2(n));
    OrZero(0);
    DivModDef(BitOr(a, b), Pow2(n));
  }

  /** A word loaded from these bytes holds, in network order, their number; stored it is these bytes. */
  lemma {:induction false} Loaded(host: ByteOrder, s: seq<byte>)
    ensures FromNative(host, s) < Pow256(|s|) && Native(host, FromNative(host, s), |s|) == s
    ensures SwapOnLittle(host, FromNative(host, s), |s|) == FromBig(s)
  {
    LittleOfBytes(s);
    LittleOfBytes(Reverse(s));
    ReverseReverse(s);
    FromLittleBound(s);
    FromLittleBound(Reverse(s));
    SwapIsNetworkOrder(host, FromNative(host, s), |s|);
  }

  /** The same of the four bytes of addresses: the block's first and last one, on hosts of either order. */
  lemma {:induction false} V4OnBytes(host: ByteOrder, s: seq<byte>, prefix: nat)
    requires |s| == 4 && 1 <= prefix <= 32
    ensures var sAddr, start := FromNative(host, s), BlockStart(FromBig(s), Pow2(32 - prefix));
            && FromBig(Native(host, NetworkV4(host, sAddr, prefix).value, 4)) == start
            && FromBig(Native(host, BroadcastV4(host, sAddr, prefix).value, 4)) == start + Pow2(32 - prefix) - 1
  {
    var sAddr := FromNative(host, s);
    V4Sizes();
    Loaded(host, s);
    V4Arithmetic(host, sAddr, prefix);
    MaskFits(host, 32, 4, prefix);
    AndNotAtMost(sAddr, SwapOnLittle(host, CreateMask(32, prefix), 4));
    OrBelow(sAddr, SwapOnLittle(host, CreateMask(32, prefix), 4), 32);
    SwapIsNetworkOrder(host, NetworkV4(host, sAddr, prefix).value, 4);
    SwapIsNetworkOrder(host, BroadcastV4(host, sAddr, prefix).value, 4);
  }

  /** For a word of any width: the mask has as many bits as the prefix says. */
  lemma {:induction false} MaskBits(host: ByteOrder, width: nat, w: nat, prefix: nat)
    requires prefix <= width && Pow256(w) == Pow2(width)
    ensures PopCount(MaskWord(host, width, w, prefix)) == prefix
  {
    var mask := CreateMask(width, prefix);
    MaskFits(host, width, w, prefix);
    PopSwap(mask, w);
    PopOnes(width - prefix);
    PopComplement(SwapOnLittle(host, mask, w), width);
  }

  /** CountBits of the subnet mask, as interface enumeration takes it, is the prefix length. */
  lemma {:induction false} V4MaskHasPrefix(host: ByteOrder, prefix: nat)
    requires 1 <= prefix <= 32
    ensures PopCount(SubnetMaskV4(host, prefix).value) == prefix
  {
    V4Sizes();
    MaskBits(host, 32, 4, prefix);
  }

  /** As the number that goes out in network order it is all ones but for the 32 - prefix low bits. */
  lemma {:induction false} V4MaskValue(host: ByteOrder, prefix: nat)
    requires 1 <= prefix <= 32
    ensures SubnetMaskV4(host, prefix).value < Pow256(4)
    ensures SwapOnLittle(host, SubnetMaskV4(host, prefix).value, 4) == U32 - Pow2(32 - prefix)
  {
    V4Sizes();
    MaskValueIn(host, 32, 4, prefix);
  }

  /** For a word of any width: the complement commutes with the swap. */
  lemma {:induction false} MaskValueIn(host: ByteOrder, width: nat, w: nat, prefix: nat)
    requires prefix <= width && Pow256(w) == Pow2(width)
    ensures MaskWord(host, width, w, prefix) < Pow256(w)
    ensures SwapOnLittle(host, MaskWord(host, width, w, prefix), w) == Pow2(width) - Pow2(width - prefix)
  {
    var mask := CreateMask(width, prefix);
    MaskFits(host, width, w, prefix);
    SwapOnLittleTwice(host, mask, w);
    SwapComplement(SwapOnLittle(host, mask, w), w);
  }

  /** Swapping the bytes of the complement is the complement of the swapped bytes. */
  lemma {:induction false} SwapComplement(v: nat, w: nat)
    requires v < Pow256(w)
    ensures ByteSwap(v, w) < Pow256(w) && ByteSwap(Pow256(w) - 1 - v, w) == Pow256(w) - 1 - ByteSwap(v, w)
  {
    hide ByteSwap, Pow256;
    if w == 0 {
      NoBytes(v);
    } else {
      ComplementParts(v, w);
      SwapComplement(v / 256, w - 1);
      ByteSwapShifts(v, w);
      ByteSwapShifts(Pow256(w) - 1 - v, w);
      TopByte(Pow256(w - 1), v % 256, ByteSwap(v / 256, w - 1));
    }
  }

  lemma NoBytes(v: nat)
    ensures Pow256(0) == 1 && ByteSwap(v, 0) == 0
  {
  }

  lemma {:induction false} ComplementParts(v: nat, w: nat)
    requires w > 0 && v < Pow256(w)
    ensures Pow256(w) == 256 * Pow256(w - 1) && v / 256 < Pow256(w - 1)
    ensures (Pow256(w) - 1 - v) % 256 == 255 - v % 256 && (Pow256(w) - 1 - v) / 256 == Pow256(w - 1) - 1 - v / 256
  {
  }

  lemma TopByte(p: nat, low: nat, rest: nat)
    requires low < 256 && rest < p
    ensures p - 1 - rest + p * (255 - low) == 256 * p - 1 - (rest + p * low)
    ensures rest + p * low < 256 * p
  {
    assert p * (255 - low) == p * 255 - p * low;
    MulMono(p, low, 255);
  }

  // ---------------------------------------------------------------- any prefix

  /** The first number of the block of `size` numbers that a is in. */
  function BlockStart(a: nat, size: nat): nat
    requires size > 0
  {
    a - a % size
  }

  /** Network addresses behave: not above the address, the broadcast not below, and a block is its own network. */
  lemma {:induction false} BlockFacts(a: nat, b: nat, size: nat)
    requires size > 0
    ensures BlockStart(a, size) <= a <= BlockStart(a, size) + size - 1
    ensures BlockStart(BlockStart(a, size), size) == BlockStart(a, size)
    ensures BlockStart(a, size) == BlockStart(b, size) <==> a / size == b / size
  {
    DivModDef(a, size);
    DivModDef(b, size);
    DivModUnique(BlockStart(a, size), size, a / size, 0);
    if BlockStart(a, size) == BlockStart(b, size) {
      DivModUnique(BlockStart(b, size), size, b / size, 0);
    }
  }

  /** Bit i from the top of a number of `width` bits. */
  function TopBit(width: nat, a: nat, i: nat): nat
    requires i < width
  {
    a / Pow2(width - 1 - i) % 2
  }

  lemma {:induction false} DivTwice(a: nat, c: nat)
    requires c > 0
    ensures a / (2 * c) == a / c / 2
  {
    var q, r := a / c, a % c;
    DivModDef(a, c);
    DivModDef(q, 2);
    assert c * q == 2 * c * (q / 2) + c * (q % 2);
    MulMono(c, q % 2, 1);
    DivModUnique(a, 2 * c, q / 2, c * (q % 2) + r);
  }

  /** The first p bits are the same. */
  ghost predicate SamePrefix(width: nat, a: nat, b: nat, p: nat)
    requires p <= width
  {
    forall i: nat :: i < p ==> TopBit(width, a, i) == TopBit(width, b, i)
  }

  lemma {:induction false} SamePrefixMore(width: nat, a: nat, b: nat, p: nat)
    requires p < width
    ensures SamePrefix(width, a, b, p + 1) <==> SamePrefix(width, a, b, p) && TopBit(width, a, p) == TopBit(width, b, p)
  {
  }

  lemma {:induction false} HalvesAgree(x: int, y: int)
    ensures x == y <==> x / 2 == y / 2 && x % 2 == y % 2
  {
  }

  /** Numbers are in the same block of 2^(width - p) exactly if their first p bits are the same. */
  lemma {:induction false} SameBlock(width: nat, a: nat, b: nat, p: nat)
    requires a < Pow2(width) && b < Pow2(width) && p <= width
    ensures a / Pow2(width - p) == b / Pow2(width - p) <==> SamePrefix(width, a, b, p)
  {
    if p == 0 {
      DivModUnique(a, Pow2(width), 0, a);
      DivModUnique(b, Pow2(width), 0, b);
    } else {
      SameBlock(width, a, b, p - 1);
      SamePrefixMore(width, a, b, p - 1);
      OneMoreBit(width, a, p);
      OneMoreBit(width, b, p);
      HalvesAgree(a / Pow2(width - p), b / Pow2(width - p));
    }
  }

  lemma {:induction false} OneMoreBit(width: nat, a: nat, p: nat)
    requires 0 < p <= width
    ensures a / Pow2(width - p) / 2 == a / Pow2(width - (p - 1)) && a / Pow2(width - p) % 2 == TopBit(width, a, p - 1)
  {
    var c := Pow2(width - p);
    assert Pow2(width - (p - 1)) == 2 * c;
    DivTwice(a, c);
  }

  /** The number of an IPv4 address. */
  function ValueV4(host: ByteOrder, sAddr: nat): nat {
    SwapOnLittle(host, sAddr, 4)
  }

  /** For numbers of any width. */
  lemma {:induction false} WordFacts(host: ByteOrder, width: nat, w: nat, a: nat, b: nat, prefix: nat)
    requires prefix <= width && Pow256(w) == Pow2(width) && a < Pow2(width) && b < Pow2(width)
    ensures var size := Pow2(width - prefix);
            && BlockStart(a, size) <= a <= BlockStart(a, size) + size - 1
            && BlockStart(BlockStart(a, size), size) == BlockStart(a, size)
    ensures SwapOnLittle(host, BlockStart(a, Pow2(width - prefix)), w)
        == SwapOnLittle(host, BlockStart(b, Pow2(width - prefix)), w)
      <==> SamePrefix(width, a, b, prefix)
  {
    var size := Pow2(width - prefix);
    BlockFacts(a, b, size);
    BlockFacts(b, a, size);
    SwapOnLittleTwice(host, BlockStart(a, size), w);
    SwapOnLittleTwice(host, BlockStart(b, size), w);
    SameBlock(width, a, b, prefix);
  }

  /** The network address is the one word with that number. */
  lemma {:induction false} V4Network(host: ByteOrder, s: nat, prefix: nat)
    requires s < U32 && 1 <= prefix <= 32
    ensures var n, number := NetworkV4(host, s, prefix).value, BlockStart(ValueV4(host, s), Pow2(32 - prefix));
            n < U32 && ValueV4(host, n) == number && n == SwapOnLittle(host, number, 4) && ValueV4(host, s) < Pow2(32)
  {
    V4Sizes();
    SwapOnLittleTwice(host, s, 4);
    AndNotAtMost(s, SwapOnLittle(host, CreateMask(32, prefix), 4));
    V4Arithmetic(host, s, prefix);
    SwapOnLittleTwice(host, NetworkV4(host, s, prefix).value, 4);
  }

  /** networkAddress is not above the address and its own network, and broadcastAddress is not below. */
  lemma {:induction false} V4Bounds(host: ByteOrder, s: nat, prefix: nat)
    requires s < U32 && 1 <= prefix <= 32
    ensures var n := NetworkV4(host, s, prefix).value;
            && ValueV4(host, n) <= ValueV4(host, s) <= ValueV4(host, BroadcastV4(host, s, prefix).value)
            && NetworkV4(host, n, prefix) == Some(n)
  {
    var n, size := NetworkV4(host, s, prefix).value, Pow2(32 - prefix);
    V4Network(host, s, prefix);
    V4Network(host, n, prefix);
    V4Arithmetic(host, s, prefix);
    BlockFacts(ValueV4(host, s), 0, size);
  }

  /** Two addresses have the same network exactly if their first `prefix` bits are the same. */
  lemma {:induction false} V4SameNetwork(host: ByteOrder, s: nat, t: nat, prefix: nat)
    requires s < U32 && t < U32 && 1 <= prefix <= 32
    ensures NetworkV4(host, s, prefix) == NetworkV4(host, t, prefix)
      <==> SamePrefix(32, ValueV4(host, s), ValueV4(host, t), prefix)
  {
    V4Network(host, s, prefix);
    V4Network(host, t, prefix);
    V4Sizes();
    WordFacts(host, 32, 4, ValueV4(host, s), ValueV4(host, t), prefix);
  }

  // ---------------------------------------------------------------- IPv6

  lemma {:induction false} FromBigFits(s: seq<byte>)
    ensures FromBig(s) < Pow2(8 * |s|)
  {
    if s != [] {
      FromBigFits(s[..|s| - 1]);
      Pow2Add(8, 8 * (|s| - 1));
      WordSizes();
    }
  }

  lemma {:induction false} FromBigInjective(s: seq<byte>, t: seq<byte>)
    requires |s| == |t| && FromBig(s) == FromBig(t)
    ensures s == t
  {
    if s != [] {
      var n := |s| - 1;
      DivModUnique(FromBig(s), 256, FromBig(s[..n]), s[n]);
      DivModUnique(FromBig(t), 256, FromBig(t[..n]), t[n]);
      FromBigInjective(s[..n], t[..n]);
      assert s == s[..n] + [s[n]] && t == t[..n] + [t[n]];
    }
  }

  /** What NetworkV6 and BroadcastV6 make of an address. */
  ghost predicate IsNetworkV6(n: seq<byte>, s: seq<byte>, prefix: nat)
    requires prefix < 128
  {
    |n| == |s| == 16 && FromBig(n) == BlockStart(FromBig(s), Pow2(128 - prefix))
  }

  ghost predicate IsBroadcastV6(b: seq<byte>, s: seq<byte>, prefix: nat)
    requires prefix < 128
  {
    |b| == |s| == 16 && FromBig(b) == BlockStart(FromBig(s), Pow2(128 - prefix)) + Pow2(128 - prefix) - 1
  }

  lemma {:induction false} V6Order(s: seq<byte>, n: seq<byte>, b: seq<byte>, prefix: nat)
    requires prefix < 128 && IsNetworkV6(n, s, prefix) && IsBroadcastV6(b, s, prefix)
    ensures FromBig(n) <= FromBig(s) <= FromBig(b)
  {
    BlockFacts(FromBig(s), FromBig(s), Pow2(128 - prefix));
  }

  lemma {:induction false} V6Same(s: seq<byte>, n: seq<byte>, t: seq<byte>, m: seq<byte>, prefix: nat)
    requires prefix < 128 && IsNetworkV6(n, s, prefix) && IsNetworkV6(m, t, prefix)
    ensures n == m <==> SamePrefix(128, FromBig(s), FromBig(t), prefix)
  {
    hide BlockStart, FromBig, Pow2;
    BlockFacts(FromBig(s), FromBig(t), Pow2(128 - prefix));
    FromBigFits(s);
    FromBigFits(t);
    SameBlock(128, FromBig(s), FromBig(t), prefix);
    if FromBig(n) == FromBig(m) {
      FromBigInjective(n, m);
    }
  }

  /** The same facts for the 16 bytes of IPv6. */
  lemma {:induction false} V6Facts(s: seq<byte>, n: seq<byte>, b: seq<byte>, t: seq<byte>, m: seq<byte>, prefix: nat)
    requires prefix < 128 && IsNetworkV6(n, s, prefix) && IsBroadcastV6(b, s, prefix) && IsNetworkV6(m, t, prefix)
    ensures FromBig(n) <= FromBig(s) <= FromBig(b)
    ensures forall again :: IsNetworkV6(again, n, prefix) ==> again == n
    ensures n == m <==> SamePrefix(128, FromBig(s), FromBig(t), prefix)
  {
    hide BlockStart, FromBig, Pow2;
    V6Order(s, n, b, prefix);
    V6Same(s, n, t, m, prefix);
    BlockFacts(FromBig(s), FromBig(s), Pow2(128 - prefix));
    forall again | IsNetworkV6(again, n, prefix)
      ensures again == n
    {
      FromBigInjective(again, n);
    }
  }

  lemma {:induction false} OrOfBytes(a: byte, b: byte)
    ensures BitOr(a, b) < 256
  {
    OrByte(a, b);
  }

  lemma {:induction false} AndNotAtMost(a: nat, b: nat)
    ensures AndNot(a, b) <= a
  {
    if a > 0 {
      AndNotAtMost(a / 2, b / 2);
    }
  }

  function ZipOr(s: seq<byte>, t: seq<byte>): (r: seq<byte>)
    requires |s| == |t|
    ensures |r| == |s| && forall i :: 0 <= i < |s| ==> r[i] == BitOr(s[i], t[i])
  {
    if s == [] then []
    else
      var n := |s| - 1;
      OrOfBytes(s[n], t[n]);
      ZipOr(s[..n], t[..n]) + [BitOr(s[n], t[n])]
  }

  function ZipAndNot(s: seq<byte>, t: seq<byte>): (r: seq<byte>)
    requires |s| == |t|
    ensures |r| == |s| && forall i :: 0 <= i < |s| ==> r[i] == AndNot(s[i], t[i])
  {
    if s == [] then []
    else
      var n := |s| - 1;
      AndNotAtMost(s[n], t[n]);
      ZipAndNot(s[..n], t[..n]) + [AndNot(s[n], t[n])]
  }

  lemma {:induction false} BigIsCat(s: seq<byte>)
    requires s != []
    ensures FromBig(s) == Cat(8, s[|s| - 1], FromBig(s[..|s| - 1]))
  {
    WordSizes();
    CatIsSum(8, s[|s| - 1], FromBig(s[..|s| - 1]));
  }

  /** Byte by byte is the whole number at once. */
  lemma {:induction false} BigOr(s: seq<byte>, t: seq<byte>)
    requires |s| == |t|
    ensures FromBig(ZipOr(s, t)) == BitOr(FromBig(s), FromBig(t))
  {
    if s != [] {
      var n, r := |s| - 1, ZipOr(s, t);
      BigOr(s[..n], t[..n]);
      assert r[..n] == ZipOr(s[..n], t[..n]);
      BigIsCat(s);
      BigIsCat(t);
      BigIsCat(r);
      OrCat(8, s[n], FromBig(s[..n]), t[n], FromBig(t[..n]));
    }
  }

  lemma {:induction false} BigAndNot(s: seq<byte>, t: seq<byte>)
    requires |s| == |t|
    ensures FromBig(ZipAndNot(s, t)) == AndNot(FromBig(s), FromBig(t))
  {
    if s != [] {
      var n, r := |s| - 1, ZipAndNot(s, t);
      BigAndNot(s[..n], t[..n]);
      assert r[..n] == ZipAndNot(s[..n], t[..n]);
      BigIsCat(s);
      BigIsCat(t);
      BigIsCat(r);
      AndNotCat(8, s[n], FromBig(s[..n]), t[n], FromBig(t[..n]));
    }
  }

  lemma {:induction false} OnesFitByte(k: nat)
    requires k <= 8
    ensures Ones(k) < 256
  {
    WordSizes();
    Pow2Add(k, 8 - k);
    MulMono(Pow2(k), 1, Pow2(8 - k));
  }

  /** One more byte of ones. */
  lemma {:induction false} OnesGrow(k: nat)
    ensures 256 * Ones(k) + 255 == Ones(k + 8)
  {
    WordSizes();
    Pow2Add(k, 8);
  }

  /** The first n bytes of the host part of a prefix: zeros, a partial byte, all ones. */
  function HostBytes(prefix: nat, n: nat): (r: seq<byte>)
    ensures |r| == n
    ensures forall i :: 0 <= i < n ==>
              r[i] == if i < prefix / 8 then 0 else if i == prefix / 8 then CreateMask(8, prefix % 8) else 255
  {
    if n == 0 then []
    else
      OnesFitByte(8 - prefix % 8);
      HostBytes(prefix, n - 1)
      + [if n - 1 < prefix / 8 then 0 else if n - 1 == prefix / 8 then CreateMask(8, prefix % 8) else 255]
  }

  lemma FromBigNothing()
    ensures FromBig([]) == 0
  {
  }

  lemma FromBigLast(s: seq<byte>)
    requires s != []
    ensures FromBig(s) == 256 * FromBig(s[..|s| - 1]) + s[|s| - 1]
  {
  }

  lemma {:induction false} HostBytesGrow(prefix: nat, n: nat)
    requires n > 0
    ensures HostBytes(prefix, n)[..n - 1] == HostBytes(prefix, n - 1)
  {
  }

  /** The number of the first n bytes. */
  function HostNumber(prefix: nat, n: nat): nat {
    if 8 * n <= prefix then 0 else Ones(8 * n - prefix)
  }

  lemma {:induction false} HostStep(prefix: nat, n: nat)
    requires n > 0
    ensures n - 1 < prefix / 8 ==> HostNumber(prefix, n) == 0 == HostNumber(prefix, n - 1)
    ensures n - 1 == prefix / 8 ==> HostNumber(prefix, n - 1) == 0 && HostNumber(prefix, n) == CreateMask(8, prefix % 8)
    ensures n - 1 > prefix / 8 ==> HostNumber(prefix, n) == 256 * HostNumber(prefix, n - 1) + 255
  {
    if n - 1 > prefix / 8 {
      OnesGrow(8 * (n - 1) - prefix);
    }
  }

  /** As a number they are the low 8n - prefix bits. */
  lemma {:induction false} HostBytesAreOnes(prefix: nat, n: nat)
    ensures FromBig(HostBytes(prefix, n)) == HostNumber(prefix, n)
  {
    hide FromBig, HostBytes;
    if n == 0 {
      FromBigNothing();
    } else {
      HostBytesAreOnes(prefix, n - 1);
      HostStep(prefix, n);
      HostBytesGrow(prefix, n);
      FromBigLast(HostBytes(prefix, n));
    }
  }

  /** networkAddress on the 16 bytes: the partial byte is masked, the rest zeroed. */
  method NetworkV6(addr: array<byte>, prefix: nat) returns (r: array<byte>)
    requires addr.Length == 16 && prefix < 128
    ensures fresh(r) && r.Length == 16
    ensures IsNetworkV6(r[..], addr[..], prefix)
  {
    r := Copy(addr);
    var q := prefix / 8;
    OnesFitByte(8 - prefix % 8);
    AndNotAtMost(r[q], CreateMask(8, prefix % 8));
    r[q] := AndNot(r[q], CreateMask(8, prefix % 8));
    for i := q + 1 to 16
      invariant forall j :: 0 <= j < q || i <= j < 16 ==> r[j] == addr[j]
      invariant r[q] == AndNot(addr[q], CreateMask(8, prefix % 8))
      invariant forall j :: q < j < i ==> r[j] == 0
    {
      r[i] := 0;
    }
    NetworkIsMasked(addr[..], r[..], prefix);
  }

  method Copy(a: array<byte>) returns (r: array<byte>)
    ensures fresh(r) && r.Length == a.Length && r[..] == a[..]
  {
    r := new byte[a.Length];
    forall i | 0 <= i < a.Length {
      r[i] := a[i];
    }
  }

  lemma {:induction false} NetworkIsMasked(s: seq<byte>, r: seq<byte>, prefix: nat)
    requires |s| == |r| == 16 && prefix < 128
    requires forall j :: 0 <= j < 16 ==>
               r[j] == if j < prefix / 8 then s[j]
                   else if j == prefix / 8 then AndNot(s[j], CreateMask(8, prefix % 8)) else 0
    ensures FromBig(r) == BlockStart(FromBig(s), Pow2(128 - prefix))
  {
    var host := HostBytes(prefix, 16);
    forall j | 0 <= j < 16
      ensures r[j] == AndNot(s[j], host[j])
    {
      AndNotNothing(s[j]);
      AndNotOnes(s[j], 8);
      WordSizes();
      SmallMod(s[j], 256);
    }
    assert r == ZipAndNot(s, host);
    BigAndNot(s, host);
    HostBytesAreOnes(prefix, 16);
    AndNotOnes(FromBig(s), 128 - prefix);
  }

  /** broadcastAddress: the partial byte gets the host bits, the rest all ones. */
  method BroadcastV6(addr: array<byte>, prefix: nat) returns (r: array<byte>)
    requires addr.Length == 16 && prefix < 128
    ensures fresh(r) && r.Length == 16
    ensures IsBroadcastV6(r[..], addr[..], prefix)
  {
    r := Copy(addr);
    var q := prefix / 8;
    OnesFitByte(8 - prefix % 8);
    OrOfBytes(r[q], CreateMask(8, prefix % 8));
    r[q] := BitOr(r[q], CreateMask(8, prefix % 8));
    for i := q + 1 to 16
      invariant forall j :: 0 <= j < q || i <= j < 16 ==> r[j] == addr[j]
      invariant r[q] == BitOr(addr[q], CreateMask(8, prefix % 8))
      invariant forall j :: q < j < i ==> r[j] == BitOr(addr[j], 255)
    {
      OrOfBytes(r[i], 255);
      r[i] := BitOr(r[i], 255);
    }
    BroadcastIsFilled(addr[..], r[..], prefix);
  }

  lemma {:induction false} BroadcastIsFilled(s: seq<byte>, r: seq<byte>, prefix: nat)
    requires |s| == |r| == 16 && prefix < 128
    requires forall j :: 0 <= j < 16 ==>
               r[j] == if j < prefix / 8 then s[j]
                   else BitOr(s[j], if j == prefix / 8 then CreateMask(8, prefix % 8) else 255)
    ensures FromBig(r) == BlockStart(FromBig(s), Pow2(128 - prefix)) + Pow2(128 - prefix) - 1
  {
    var host := HostBytes(prefix, 16);
    forall j | 0 <= j < 16
      ensures r[j] == BitOr(s[j], host[j])
    {
      OrNothing(s[j]);
    }
    assert r == ZipOr(s, host);
    BigOr(s, host);
    HostBytesAreOnes(prefix, 16);
    OrOnes(FromBig(s), 128 - prefix);
  }

  // ---------------------------------------------------------------- masks and prefix lengths

  /** The bits set in all bytes. */
  function PopSum(s: seq<byte>): nat {
    if s == [] then 0 else PopSum(s[..|s| - 1]) + PopCount(s[|s| - 1])
  }

  /** subnetMask on the 16 bytes. */
  method SubnetMaskV6(prefix: nat) returns (r: array<byte>)
    requires prefix < 128
    ensures fresh(r) && r.Length == 16
    ensures PopSum(r[..]) == prefix
    ensures FromBig(r[..]) == Ones(128) - Ones(128 - prefix)
  {
    r := new byte[16](_ => 0);
    var q := prefix / 8;
    OnesFitByte(8 - prefix % 8);
    r[q] := 255 - CreateMask(8, prefix % 8);
    for i := 0 to q
      invariant forall j :: 0 <= j < i ==> r[j] == 255
      invariant r[q] == 255 - CreateMask(8, prefix % 8)
      invariant forall j :: q < j < 16 ==> r[j] == 0
    {
      r[i] := 255;
    }
    MaskIsRight(r[..], prefix);
  }

  ghost predicate IsMask(s: seq<byte>, prefix: nat) {
    forall j :: 0 <= j < |s| ==>
      s[j] == if j < prefix / 8 then 255 else if j == prefix / 8 then 255 - CreateMask(8, prefix % 8) else 0
  }

  /** The first n bytes of a mask have the first 8n of its bits. */
  lemma {:induction false} MaskBytes(s: seq<byte>, prefix: nat, n: nat)
    requires n <= |s| && IsMask(s, prefix)
    ensures PopSum(s[..n]) == if 8 * n <= prefix then 8 * n else prefix
  {
    if n > 0 {
      MaskBytes(s, prefix, n - 1);
      assert s[..n][..n - 1] == s[..n - 1];
      MaskByte(s[n - 1], prefix, n - 1);
    }
  }

  lemma {:induction false} MaskByte(b: byte, prefix: nat, i: nat)
    requires b == if i < prefix / 8 then 255 else if i == prefix / 8 then 255 - CreateMask(8, prefix % 8) else 0
    ensures PopCount(b) == if i < prefix / 8 then 8 else if i == prefix / 8 then prefix % 8 else 0
  {
    WordSizes();
    if i < prefix / 8 {
      PopOnes(8);
    } else if i == prefix / 8 {
      TopBits(8, prefix % 8);
    }
  }

  /** A word of n bits with the r topmost set. */
  lemma {:induction false} TopBits(n: nat, r: nat)
    requires r <= n
    ensures Ones(n - r) <= Ones(n) && PopCount(Ones(n) - Ones(n - r)) == r
  {
    Pow2Add(n - r, r);
    MulMono(Pow2(n - r), 1, Pow2(r));
    PopOnes(n - r);
    PopComplement(Ones(n - r), n);
  }

  /** A mask is the complement of the host part. */
  lemma {:induction false} MaskValue(s: seq<byte>, prefix: nat, n: nat)
    requires n <= |s| && IsMask(s, prefix)
    ensures FromBig(s[..n]) == Ones(8 * n) - FromBig(HostBytes(prefix, n))
  {
    hide FromBig, HostBytes;
    if n == 0 {
      FromBigNothing();
    } else {
      MaskValue(s, prefix, n - 1);
      FromBigLast(s[..n]);
      assert s[..n][..n - 1] == s[..n - 1];
      HostBytesGrow(prefix, n);
      FromBigLast(HostBytes(prefix, n));
      OnesGrow(8 * (n - 1));
    }
  }

  lemma {:induction false} MaskIsRight(s: seq<byte>, prefix: nat)
    requires |s| == 16 && prefix < 128 && IsMask(s, prefix)
    ensures PopSum(s) == prefix && FromBig(s) == Ones(128) - Ones(128 - prefix)
  {
    assert s[..16] == s;
    MaskBytes(s, prefix, 16);
    MaskValue(s, prefix, 16);
    HostBytesAreOnes(prefix, 16);
  }

  /** The loop of interface enumeration over the bytes of an IPv6 mask. */
  method PrefixLength(mask: seq<byte>) returns (prefixLen: nat)
    ensures prefixLen == PopSum(mask)
  {
    prefixLen := 0;
    for i := 0 to |mask|
      invariant prefixLen == PopSum(mask[..i])
    {
      var n := CountBits(mask[i]);
      prefixLen := prefixLen + n;
      assert mask[..i + 1][..i] == mask[..i];
    }
    assert mask[..|mask|] == mask;
  }
}
