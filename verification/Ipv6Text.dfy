/** IPv6Address::print of yuan/address.cc, and reading its output back (section 2.2 of RFC 4291). */
module Ipv6Text {
  import opened Options
  import opened Words

  const COLON: char := ':'

  predicate IsHexChar(c: char) {
    '0' <= c <= '9' || 'a' <= c <= 'f'
  }

  function HexChar(d: nat): (c: char)
    requires d < 16
    ensures IsHexChar(c)
  {
    if d < 10 then '0' + d as char else 'a' + (d - 10) as char
  }

  function HexDigit(c: char): (d: nat)
    requires IsHexChar(c)
    ensures d < 16
  {
    if c <= '9' then c as int - '0' as int else c as int - 'a' as int + 10
  }

  /** std::hex: lower case, no leading zeros. */
  function Hex(v: nat): (s: string)
    ensures s != [] && forall i :: 0 <= i < |s| ==> IsHexChar(s[i])
  {
    if v < 16 then [HexChar(v)] else Hex(v / 16) + [HexChar(v % 16)]
  }

  lemma LowerDigit(d: nat)
    requires d < 16
    ensures HexChar(d) == LOWER_HEX[d]
  {
  }

  lemma {:induction false} HexInDigits(digits: string, v: nat)
    requires |digits| == 16 && forall d: nat :: d < 16 ==> HexChar(d) == digits[d]
    ensures Hex(v) == HexText(digits, v)
  {
    hide HexChar;
    if v >= 16 {
      HexInDigits(digits, v / 16);
    }
  }

  /** It is the number in lower-case digits. */
  lemma {:induction false} HexIsText(v: nat)
    ensures Hex(v) == HexText(LOWER_HEX, v)
  {
    hide Hex, HexText;
    forall d: nat | d < 16
      ensures HexChar(d) == LOWER_HEX[d]
    {
      LowerDigit(d);
    }
    HexInDigits(LOWER_HEX, v);
  }

  /** No leading zero, and one to four digits for a group. */
  lemma {:induction false} HexIsShort(v: nat)
    ensures Hex(v)[0] == '0' <==> v == 0
    ensures v < 0x1_0000 ==> |Hex(v)| <= 4
    ensures v < 0x1000 ==> |Hex(v)| <= 3
    ensures v < 0x100 ==> |Hex(v)| <= 2
    ensures v < 16 <==> |Hex(v)| == 1
  {
    if v >= 16 {
      HexIsShort(v / 16);
    }
  }

  function ParseHex(s: string): nat
    requires forall i :: 0 <= i < |s| ==> IsHexChar(s[i])
  {
    if s == [] then 0 else 16 * ParseHex(s[..|s| - 1]) + HexDigit(s[|s| - 1])
  }

  lemma {:induction false} HexRoundTrip(v: nat)
    ensures ParseHex(Hex(v)) == v
  {
    if v < 16 {
      assert [HexChar(v)][..0] == [];
    } else {
      HexRoundTrip(v / 16);
      assert Hex(v)[..|Hex(v)| - 1] == Hex(v / 16);
    }
  }

  // ---------------------------------------------------------------- groups with single colons

  /** The groups in hexadecimal with a colon between them. */
  function Colons(g: seq<nat>): string {
    if g == [] then ""
    else if |g| == 1 then Hex(g[0])
    else Colons(g[..|g| - 1]) + [COLON] + Hex(g[|g| - 1])
  }

  /** Where the text starts to be the part behind its last colon. */
  function LastPart(s: string): (k: nat)
    ensures k <= |s| && (k > 0 ==> s[k - 1] == COLON)
    ensures forall i :: k <= i < |s| ==> s[i] != COLON
  {
    if s == [] || s[|s| - 1] == COLON then |s| else LastPart(s[..|s| - 1])
  }

  /** Reading such a text; None if there is anything else in it. */
  function ParseColons(s: string): (g: Option<seq<nat>>)
    decreases |s|
  {
    if s == [] then Some([])
    else
      var k := LastPart(s);
      if k == |s| || exists i :: k <= i < |s| && !IsHexChar(s[i]) then None
      else if k == 0 then Some([ParseHex(s)])
      else if k == 1 then None
      else
        var front := ParseColons(s[..k - 1]);
        if front.None? then None else Some(front.value + [ParseHex(s[k..])])
  }

  lemma {:induction false} LastPartOf(a: string, b: string)
    requires forall i :: 0 <= i < |b| ==> b[i] != COLON
    ensures LastPart(a + [COLON] + b) == |a| + 1
  {
    var s := a + [COLON] + b;
    if b != [] {
      LastPartOf(a, b[..|b| - 1]);
      assert s[..|s| - 1] == a + [COLON] + b[..|b| - 1];
    }
  }

  lemma {:induction false} LastPartAlone(b: string)
    requires forall i :: 0 <= i < |b| ==> b[i] != COLON
    ensures LastPart(b) == 0
  {
    if b != [] {
      LastPartAlone(b[..|b| - 1]);
    }
  }

  predicate AllHex(s: string) {
    forall i :: 0 <= i < |s| ==> IsHexChar(s[i])
  }

  lemma {:induction false} ParseMore(front: string, last: string)
    requires front != [] && last != [] && AllHex(last) && ParseColons(front).Some?
    ensures ParseColons(front + [COLON] + last) == Some(ParseColons(front).value + [ParseHex(last)])
  {
    var s := front + [COLON] + last;
    LastPartOf(front, last);
    assert s[|front| + 1..] == last && s[..|front|] == front;
  }

  lemma {:induction false} ParseOne(s: string)
    requires s != [] && AllHex(s)
    ensures ParseColons(s) == Some([ParseHex(s)])
  {
    LastPartAlone(s);
  }

  lemma {:induction false} ColonsMore(g: seq<nat>, n: nat)
    requires n < |g|
    ensures Colons(g[..n + 1]) == if n == 0 then Hex(g[0]) else Colons(g[..n]) + [COLON] + Hex(g[n])
  {
    assert g[..n + 1][..n] == g[..n];
  }

  lemma {:induction false} ColonsRoundTrip(g: seq<nat>)
    ensures ParseColons(Colons(g)) == Some(g)
    ensures g != [] ==> Colons(g) != []
    decreases |g|
  {
    if g != [] {
      var n := |g| - 1;
      assert g[..n + 1] == g && g == g[..n] + [g[n]];
      ColonsRoundTrip(g[..n]);
      HexRoundTrip(g[n]);
      ColonsMore(g, n);
      if n == 0 {
        ParseOne(Hex(g[0]));
      } else {
        ParseMore(Colons(g[..n]), Hex(g[n]));
      }
    }
  }

  // ---------------------------------------------------------------- the double colon

  /** s has a double colon at k. */
  predicate DoubleAt(s: string, k: nat) {
    k + 2 <= |s| && s[k] == COLON && s[k + 1] == COLON
  }

  /** The text of single colons has no double colon and neither begins nor ends with a colon. */
  lemma {:induction false} ColonsAreSingle(g: seq<nat>)
    ensures forall k: nat :: !DoubleAt(Colons(g), k)
    ensures g != [] ==> Colons(g) != [] && Colons(g)[0] != COLON && Colons(g)[|Colons(g)| - 1] != COLON
    decreases |g|
  {
    if |g| > 1 {
      var front, last, s := Colons(g[..|g| - 1]), Hex(g[|g| - 1]), Colons(g);
      ColonsAreSingle(g[..|g| - 1]);
      assert s == front + [COLON] + last;
      forall k: nat | k + 2 <= |s|
        ensures !DoubleAt(s, k)
      {
        assert k + 2 <= |front| ==> !DoubleAt(front, k);
        assert k > |front| ==> s[k] == last[k - |front| - 1];
      }
    } else if |g| == 1 {
      assert IsHexChar(Hex(g[0])[0]) && IsHexChar(Hex(g[0])[|Hex(g[0])| - 1]);
    }
  }

  /** Where the first double colon is, or the length of the text. */
  function FindDouble(s: string, from: nat): (k: nat)
    requires from <= |s|
    ensures k == |s| || DoubleAt(s, k)
    ensures from <= k <= |s| && forall j :: from <= j < k ==> !DoubleAt(s, j)
    decreases |s| - from
  {
    if from == |s| || DoubleAt(s, from) then from else FindDouble(s, from + 1)
  }

  function Zeros(n: nat): (z: seq<nat>)
    ensures |z| == n && forall i :: 0 <= i < n ==> z[i] == 0
  {
    if n == 0 then [] else Zeros(n - 1) + [0]
  }

  /** The eight groups a text stands for: a double colon is as many zero groups as are missing. */
  function Expand(s: string): Option<seq<nat>> {
    var k := FindDouble(s, 0);
    if k == |s| then
      var all := ParseColons(s);
      if all.Some? && |all.value| == 8 then all else None
    else
      var left, right := ParseColons(s[..k]), ParseColons(s[k + 2..]);
      if left.None? || right.None? || |left.value| + |right.value| >= 8 then None
      else Some(left.value + Zeros(8 - |left.value| - |right.value|) + right.value)
  }

  /** What print puts out for eight groups, the first run of zero groups being from z to e. */
  function TextOf(g: seq<nat>, z: nat, e: nat): string
    requires z <= e <= |g|
  {
    if z == e then Colons(g) else Colons(g[..z]) + [COLON, COLON] + Colons(g[e..])
  }

  /** From z to e: the first run of zero groups, as long as it goes; empty at the end if there is none. */
  ghost predicate FirstRun(g: seq<nat>, z: nat, e: nat) {
    && z <= e <= |g|
    && (forall i :: 0 <= i < z ==> g[i] != 0)
    && (forall i :: z <= i < e ==> g[i] == 0)
    && (e < |g| ==> g[e] != 0)
    && (z == e ==> z == |g|)
  }

  /** Where the loop of print stands after i groups: all printed, inside the first run of zeros, or behind it. */
  ghost predicate Printed(g: seq<nat>, i: nat, z: nat, e: nat, usedZeros: bool, os: string) {
    && z <= e <= i <= |g|
    && (forall j :: 0 <= j < z ==> g[j] != 0)
    && (forall j :: z <= j < e ==> g[j] == 0)
    && (if usedZeros then z < e < i && g[e] != 0 && os == Colons(g[..z]) + [COLON, COLON] + Colons(g[e..i])
        else e == i && os == Colons(g[..z]))
  }

  /** The loop of print, on the groups. */
  method Print(g: seq<nat>) returns (os: string, ghost z: nat, ghost e: nat)
    requires |g| == 8
    ensures FirstRun(g, z, e) && os == TextOf(g, z, e)
    ensures Expand(os) == Some(g)
    ensures forall j, k :: DoubleAt(os, j) && DoubleAt(os, k) ==> j == k
  {
    os, z, e := "", 0, 0;
    var usedZeros := false;
    for i := 0 to 8
      invariant Printed(g, i, z, e, usedZeros, os)
    {
      if g[i] == 0 && !usedZeros {
        e := i + 1;
        continue;
      }
      GroupMore(g, i, z, e, usedZeros, os);
      if !usedZeros && z == i {
        z, e := i + 1, i + 1;
      }
      if i > 0 && g[i - 1] == 0 && !usedZeros {
        os := os + [COLON];
        usedZeros := true;
      }
      if i > 0 {
        os := os + [COLON];
      }
      os := os + Hex(g[i]);
    }
    AllPrinted(g, z, e, usedZeros, os);
    if !usedZeros && g[7] == 0 {
      os := os + [COLON, COLON];
    }
    PrintRoundTrip(g, z, e);
    forall j, k | DoubleAt(os, j) && DoubleAt(os, k)
      ensures j == k
    {
      AtMostOneDouble(g, z, e, j, k);
    }
  }

  /** What one more group, of which none of the zeros in a first run, adds to the text. */
  lemma {:induction false} GroupMore(g: seq<nat>, i: nat, z: nat, e: nat, usedZeros: bool, os: string)
    requires i < |g| && Printed(g, i, z, e, usedZeros, os) && (g[i] != 0 || usedZeros)
    ensures usedZeros ==> i > 0 && Printed(g, i + 1, z, e, true, os + [COLON] + Hex(g[i]))
    ensures !usedZeros && z < i ==> g[i - 1] == 0 && Printed(g, i + 1, z, e, true, os + [COLON] + [COLON] + Hex(g[i]))
    ensures !usedZeros && z == i && i > 0 ==> g[i - 1] != 0
    ensures !usedZeros && z == i ==>
              Printed(g, i + 1, i + 1, i + 1, false, (if i > 0 then os + [COLON] else os) + Hex(g[i]))
  {
    if usedZeros {
      MoreAfterRun(g, i, z, e, os);
    } else if z < i {
      MoreEndsRun(g, i, z, e, os);
    } else {
      MoreBeforeRun(g, i, z, e, os);
    }
  }

  lemma {:induction false} MoreAfterRun(g: seq<nat>, i: nat, z: nat, e: nat, os: string)
    requires i < |g| && Printed(g, i, z, e, true, os)
    ensures i > 0 && Printed(g, i + 1, z, e, true, os + [COLON] + Hex(g[i]))
  {
    ColonsRange(g, e, i);
    Regroup(Colons(g[..z]), Colons(g[e..i]), Hex(g[i]));
  }

  lemma {:induction false} MoreEndsRun(g: seq<nat>, i: nat, z: nat, e: nat, os: string)
    requires i < |g| && Printed(g, i, z, e, false, os) && g[i] != 0 && z < i
    ensures g[i - 1] == 0 && Printed(g, i + 1, z, e, true, os + [COLON] + [COLON] + Hex(g[i]))
  {
    assert e == i && g[i..i + 1] == [g[i]];
    assert Colons([g[i]]) == Hex(g[i]);
    assert os + [COLON] + [COLON] + Hex(g[i]) == Colons(g[..z]) + [COLON, COLON] + Colons(g[e..i + 1]);
  }

  lemma {:induction false} MoreBeforeRun(g: seq<nat>, i: nat, z: nat, e: nat, os: string)
    requires i < |g| && Printed(g, i, z, e, false, os) && g[i] != 0 && z == i
    ensures i > 0 ==> g[i - 1] != 0
    ensures Printed(g, i + 1, i + 1, i + 1, false, (if i > 0 then os + [COLON] else os) + Hex(g[i]))
  {
    ColonsMore(g, i);
  }

  lemma {:induction false} ColonsRange(g: seq<nat>, e: nat, i: nat)
    requires e < i < |g|
    ensures Colons(g[e..i + 1]) == Colons(g[e..i]) + [COLON] + Hex(g[i])
  {
    assert g[e..i + 1][..i - e] == g[e..i];
  }

  lemma {:induction false} Regroup(left: string, right: string, last: string)
    ensures left + [COLON, COLON] + right + [COLON] + last == left + [COLON, COLON] + (right + [COLON] + last)
  {
  }

  lemma {:induction false} AllPrinted(g: seq<nat>, z: nat, e: nat, usedZeros: bool, os: string)
    requires g != [] && Printed(g, |g|, z, e, usedZeros, os)
    ensures FirstRun(g, z, e)
    ensures if !usedZeros && g[|g| - 1] == 0 then os + [COLON, COLON] == TextOf(g, z, e) else os == TextOf(g, z, e)
  {
    assert g[..|g|] == g && g[e..|g|] == g[e..];
  }

  // ---------------------------------------------------------------- reading it back

  /** The only double colon of the text is the one for the run. */
  lemma {:induction false} DoubleIsRun(g: seq<nat>, z: nat, e: nat, k: nat)
    requires z < e <= |g|
    ensures DoubleAt(TextOf(g, z, e), k) <==> k == |Colons(g[..z])|
  {
    ColonsAreSingle(g[..z]);
    ColonsAreSingle(g[e..]);
    DoubleInJoin(Colons(g[..z]), Colons(g[e..]), k);
  }

  lemma {:induction false} DoubleInJoin(left: string, right: string, k: nat)
    requires forall j: nat :: !DoubleAt(left, j) && !DoubleAt(right, j)
    requires (left != [] ==> left[|left| - 1] != COLON) && (right != [] ==> right[0] != COLON)
    ensures DoubleAt(left + [COLON, COLON] + right, k) <==> k == |left|
  {
    var s := left + [COLON, COLON] + right;
    if k + 2 <= |s| {
      assert k + 2 <= |left| ==> !DoubleAt(left, k);
      if k >= |left| + 2 {
        assert !DoubleAt(right, k - |left| - 2);
        assert s[k] == right[k - |left| - 2] && s[k + 1] == right[k - |left| - 1];
      }
    }
  }

  /** The text has at most one double colon. */
  lemma {:induction false} AtMostOneDouble(g: seq<nat>, z: nat, e: nat, j: nat, k: nat)
    requires z <= e <= |g| && DoubleAt(TextOf(g, z, e), j) && DoubleAt(TextOf(g, z, e), k)
    ensures j == k
  {
    if z == e {
      ColonsAreSingle(g);
    } else {
      DoubleIsRun(g, z, e, j);
      DoubleIsRun(g, z, e, k);
    }
  }

  lemma {:induction false} ExpandRun(left: string, right: string, gl: seq<nat>, gr: seq<nat>)
    requires FindDouble(left + [COLON, COLON] + right, 0) == |left| && |gl| + |gr| < 8
    requires ParseColons(left) == Some(gl) && ParseColons(right) == Some(gr)
    ensures Expand(left + [COLON, COLON] + right) == Some(gl + Zeros(8 - |gl| - |gr|) + gr)
  {
    var s := left + [COLON, COLON] + right;
    assert s[..|left|] == left && s[|left| + 2..] == right;
  }

  /** The run is where the first double colon is found. */
  lemma {:induction false} RunIsFound(g: seq<nat>, z: nat, e: nat)
    requires z < e <= |g|
    ensures FindDouble(TextOf(g, z, e), 0) == |Colons(g[..z])|
  {
    DoubleIsRun(g, z, e, |Colons(g[..z])|);
    DoubleIsRun(g, z, e, FindDouble(TextOf(g, z, e), 0));
  }

  lemma {:induction false} ExpandGroups(gl: seq<nat>, gr: seq<nat>)
    requires FindDouble(Colons(gl) + [COLON, COLON] + Colons(gr), 0) == |Colons(gl)| && |gl| + |gr| < 8
    ensures Expand(Colons(gl) + [COLON, COLON] + Colons(gr)) == Some(gl + Zeros(8 - |gl| - |gr|) + gr)
  {
    ColonsRoundTrip(gl);
    ColonsRoundTrip(gr);
    ExpandRun(Colons(gl), Colons(gr), gl, gr);
  }

  lemma {:induction false} RunRoundTrip(g: seq<nat>, z: nat, e: nat)
    requires |g| == 8 && FirstRun(g, z, e) && z < e
    ensures Expand(TextOf(g, z, e)) == Some(g[..z] + Zeros(e - z) + g[e..])
  {
    RunIsFound(g, z, e);
    ExpandGroups(g[..z], g[e..]);
  }

  lemma {:induction false} PlainRoundTrip(g: seq<nat>)
    requires |g| == 8
    ensures Expand(Colons(g)) == Some(g)
  {
    ColonsAreSingle(g);
    ColonsRoundTrip(g);
  }

  /** Expanding what print puts out gives the groups back. */
  lemma {:induction false} PrintRoundTrip(g: seq<nat>, z: nat, e: nat)
    requires |g| == 8 && FirstRun(g, z, e)
    ensures Expand(TextOf(g, z, e)) == Some(g)
  {
    if z == e {
      PlainRoundTrip(g);
    } else {
      RunRoundTrip(g, z, e);
      RunOfZeros(g, z, e);
    }
  }

  lemma {:induction false} RunOfZeros(g: seq<nat>, z: nat, e: nat)
    requires z <= e <= |g| && forall i :: z <= i < e ==> g[i] == 0
    ensures g[..z] + Zeros(e - z) + g[e..] == g
  {
  }

  /** So no two lists of groups print alike. */
  lemma {:induction false} PrintIsInjective(g: seq<nat>, z: nat, e: nat, g': seq<nat>, z': nat, e': nat)
    requires |g| == |g'| == 8 && FirstRun(g, z, e) && FirstRun(g', z', e')
    requires TextOf(g, z, e) == TextOf(g', z', e')
    ensures g == g'
  {
    PrintRoundTrip(g, z, e);
    PrintRoundTrip(g', z', e');
  }

  // ---------------------------------------------------------------- the groups of an address

  /** Group i as print shows it: the two bytes as a native word, swapped on a little-endian host. */
  function Group(host: ByteOrder, bytes: seq<byte>, i: nat): nat
    requires 2 * i + 2 <= |bytes|
  {
    var word := FromNative(host, bytes[2 * i..2 * i + 2]);
    if host.LittleEndian? then ByteSwap(word, 2) else word
  }

  lemma {:induction false} TwoBytes(two: seq<byte>)
    requires |two| == 2
    ensures FromLittle(two) == 0 <==> two[0] == 0 && two[1] == 0
  {
    assert two[1..] == [two[1]];
    assert FromLittle([two[1]]) == two[1] + 256 * FromLittle([]);
  }

  /** It is the number the two bytes make in network order, on either host, and zero exactly when the word is. */
  lemma {:induction false} GroupIsBig(host: ByteOrder, bytes: seq<byte>, i: nat)
    requires 2 * i + 2 <= |bytes|
    ensures Group(host, bytes, i) == FromBig(bytes[2 * i..2 * i + 2])
    ensures FromNative(host, bytes[2 * i..2 * i + 2]) == 0 <==> Group(host, bytes, i) == 0
  {
    var two := bytes[2 * i..2 * i + 2];
    ByteSwapOfNative(host, two);
    FromBigReverses(two);
    TwoBytes(two);
    TwoBytes(Reverse(two));
  }

  /** print without the port: in brackets, the text of the eight groups of the 16 bytes. */
  method PrintAddress(host: ByteOrder, bytes: seq<byte>) returns (os: string)
    requires |bytes| == 16
    ensures |os| >= 2 && os[0] == '[' && os[|os| - 1] == ']'
    ensures Expand(os[1..|os| - 1]) == Some(Groups(bytes, 8))
  {
    var g: seq<nat> := [];
    for i := 0 to 8
      invariant g == Groups(bytes, i)
    {
      GroupIsBig(host, bytes, i);
      g := g + [Group(host, bytes, i)];
    }
    var text, _, _ := Print(g);
    os := "[" + text + "]";
    assert os[1..|os| - 1] == text;
  }

  /** The first n pairs of bytes as numbers in network order. */
  function Groups(bytes: seq<byte>, n: nat): (g: seq<nat>)
    requires 2 * n <= |bytes|
    ensures |g| == n && forall i :: 0 <= i < n ==> g[i] == FromBig(bytes[2 * i..2 * i + 2])
  {
    if n == 0 then [] else Groups(bytes, n - 1) + [FromBig(bytes[2 * n - 2..2 * n])]
  }

  lemma {:induction false} BigOfTwo(two: seq<byte>)
    requires |two| == 2
    ensures FromBig(two) == (two[0] as int) * 256 + two[1]
  {
    var one := two[..1];
    assert one[..0] == [] && FromBig([]) == 0;
    assert FromBig(one) == 256 * FromBig(one[..0]) + one[0];
    assert two[..|two| - 1] == one && FromBig(two) == 256 * FromBig(one) + two[1];
  }

  /** Two bytes make a group, the first being the high one. */
  lemma {:induction false} GroupIsTwoBytes(bytes: seq<byte>, n: nat, i: nat)
    requires 2 * n <= |bytes| && i < n
    ensures Groups(bytes, n)[i] == (bytes[2 * i] as int) * 256 + bytes[2 * i + 1]
  {
    hide Groups;
    BigOfTwo(bytes[2 * i..2 * i + 2]);
  }

  /** The groups determine the address, so different addresses print differently. */
  lemma {:induction false} GroupsDetermine(s: seq<byte>, t: seq<byte>, n: nat)
    requires |s| == |t| == 2 * n && Groups(s, n) == Groups(t, n)
    ensures s == t
  {
    forall i | 0 <= i < n
      ensures s[2 * i] == t[2 * i] && s[2 * i + 1] == t[2 * i + 1]
    {
      assert Groups(s, n)[i] == Groups(t, n)[i];
      BigPair(s[2 * i..2 * i + 2], t[2 * i..2 * i + 2]);
    }
    forall j | 0 <= j < 2 * n
      ensures s[j] == t[j]
    {
      assert j == 2 * (j / 2) || j == 2 * (j / 2) + 1;
    }
  }

  lemma {:induction false} BigPair(a: seq<byte>, b: seq<byte>)
    requires |a| == |b| == 2 && FromBig(a) == FromBig(b)
    ensures a[0] == b[0] && a[1] == b[1]
  {
    assert a[..1] == [a[0]] && b[..1] == [b[0]];
    assert FromBig([a[0]]) == 256 * FromBig([a[0]][..0]) + a[0] && FromBig([b[0]]) == 256 * FromBig([b[0]][..0]) + b[0];
    DivModUnique(FromBig(a), 256, a[0], a[1]);
    DivModUnique(FromBig(b), 256, b[0], b[1]);
  }
}
