/**
 * The chunk-size line (section 4.1 of RFC 7230): what it is, and how the generated machine in
 * yuan/http/httpclient_parser.rl.cc reads it.
 */
module ChunkLines {
  import opened Options
  import opened Words

  const CR: byte := 13
  const LF: byte := 10
  const SEMICOLON: byte := 59
  const EQUALS: byte := 61

  predicate IsHex(c: byte) {
    48 <= c <= 57 || 65 <= c <= 70 || 97 <= c <= 102
  }

  function HexValue(c: byte): (v: nat)
    requires IsHex(c)
    ensures v < 16
  {
    if c <= 57 then c - 48 else if c <= 70 then c - 55 else c - 87
  }

  /** The characters of a token. */
  predicate IsToken(c: byte) {
    || c == 33 || 35 <= c <= 39 || 42 <= c <= 43 || 45 <= c <= 46 || 48 <= c <= 57
    || 65 <= c <= 90 || 94 <= c <= 122 || c == 124 || c == 126
  }

  /** States 2 and 4 to 7: in the size, and in front of or in the name and the value of a chunk extension. */
  datatype Mode = Digits | NameStart | Name | ValueStart | Value

  /** The modes in which a line may end. */
  predicate MayEnd(mode: Mode) {
    mode.Digits? || mode.Name? || mode.Value?
  }

  /** Where a character that does not end the line leads. */
  function Next(mode: Mode, c: byte): Option<Mode> {
    match mode
    case Digits => if c == SEMICOLON then Some(NameStart) else if IsHex(c) then Some(Digits) else None
    case NameStart => if IsToken(c) then Some(Name) else None
    case Name =>
      if c == SEMICOLON then Some(NameStart) else if c == EQUALS then Some(ValueStart)
      else if IsToken(c) then Some(Name) else None
    case ValueStart => if IsToken(c) then Some(Value) else None
    case Value => if c == SEMICOLON then Some(NameStart) else if IsToken(c) then Some(Value) else None
  }

  /** The size with one more character: only digits count. */
  function Counted(mode: Mode, c: byte, v: nat): nat {
    if mode.Digits? && IsHex(c) then 16 * v + HexValue(c) else v
  }

  /**
   * What the machine makes of the bytes from the start of a line: a size and the bytes it took, an error, more
   * bytes needed, or a response line.
   */
  datatype Line = Size(n: nat, used: nat) | Bad | Incomplete | Elsewhere

  /** State 3: behind a CR that ends a line of size v. */
  function AfterCR(s: seq<byte>, i: nat, v: nat): Line
    requires i <= |s|
  {
    if i == |s| then Incomplete else if s[i] == LF then Size(v, i + 1) else Bad
  }

  /** In this mode, behind i characters that came to size v. */
  function LineFrom(s: seq<byte>, i: nat, mode: Mode, v: nat): (l: Line)
    requires 0 < i <= |s|
    ensures l.Size? ==> i < l.used <= |s|
    decreases |s| - i
  {
    if i == |s| then Incomplete
    else if MayEnd(mode) && s[i] == LF then Size(v, i + 1)
    else if MayEnd(mode) && s[i] == CR then AfterCR(s, i + 1, v)
    else if Next(mode, s[i]).None? then Bad
    else LineFrom(s, i + 1, Next(mode, s[i]).value, Counted(mode, s[i], v))
  }

  /** State 1. */
  function LineOf(s: seq<byte>): (l: Line)
    ensures l.Size? ==> 1 < l.used <= |s|
  {
    if s == [] then Incomplete
    else if s[0] == 72 then Elsewhere
    else if IsHex(s[0]) then LineFrom(s, 1, Digits, HexValue(s[0]))
    else Bad
  }

  /** The machine goes on at a character that does not end the line. */
  predicate GoesOn(mode: Mode, c: byte) {
    !(MayEnd(mode) && (c == LF || c == CR)) && Next(mode, c).Some?
  }

  /** More input does not change what has been made of a line. */
  lemma {:induction false} LineFromPrefix(s: seq<byte>, more: seq<byte>, i: nat, mode: Mode, v: nat)
    requires 0 < i <= |s| && LineFrom(s, i, mode, v) != Incomplete
    ensures LineFrom(s + more, i, mode, v) == LineFrom(s, i, mode, v)
    decreases |s| - i
  {
    if GoesOn(mode, s[i]) {
      LineFromPrefix(s, more, i + 1, Next(mode, s[i]).value, Counted(mode, s[i], v));
    }
  }

  lemma {:induction false} LineOfPrefix(s: seq<byte>, more: seq<byte>)
    requires LineOf(s) != Incomplete
    ensures LineOf(s + more) == LineOf(s)
  {
    if s[0] != 72 && IsHex(s[0]) {
      LineFromPrefix(s, more, 1, Digits, HexValue(s[0]));
    }
  }

  /** What was found of a line is found in as much of it as that takes. */
  lemma {:induction false} LineFromTake(s: seq<byte>, have: nat, i: nat, mode: Mode, v: nat)
    requires 0 < i <= |s| && LineFrom(s, i, mode, v).Size? && LineFrom(s, i, mode, v).used <= have <= |s|
    ensures LineFrom(s[..have], i, mode, v) == LineFrom(s, i, mode, v)
    decreases |s| - i
  {
    if GoesOn(mode, s[i]) {
      LineFromTake(s, have, i + 1, Next(mode, s[i]).value, Counted(mode, s[i], v));
    }
  }

  /** The machine's states. Response stands for all states behind the H of a response line. */
  datatype LineState = Start | In(mode: Mode) | BehindCR | Final | Error | Response

  /** httpclient_parser_execute from state 1: the bytes one after the other. */
  method ExecuteLine(s: seq<byte>) returns (cs: LineState, size: nat, nread: nat)
    ensures nread <= |s| && (cs != Start || s == [])
    ensures match LineOf(s)
            case Size(n, used) => cs == Final && size == n && nread == used
            case Bad => cs == Error
            case Elsewhere => cs == Response
            case Incomplete => cs != Final && cs != Error && cs != Response && nread == |s|
  {
    cs, size, nread := Start, 0, 0;
    while nread < |s|
      invariant nread <= |s| && cs != Final && cs != Error && cs != Response
      invariant cs == Start ==> nread == 0 && size == 0
      invariant cs.In? ==> nread > 0 && LineOf(s) == LineFrom(s, nread, cs.mode, size)
      invariant cs == BehindCR ==> nread > 1 && LineOf(s) == AfterCR(s, nread, size)
    {
      var c := s[nread];
      match cs {
        case Start =>
          if c == 72 {
            return Response, size, nread;
          } else if !IsHex(c) {
            return Error, size, nread;
          }
          cs, size := In(Digits), HexValue(c);
        case In(mode) =>
          if MayEnd(mode) && c == LF {
            return Final, size, nread + 1;
          } else if MayEnd(mode) && c == CR {
            cs := BehindCR;
          } else {
            var next := Next(mode, c);
            if next.None? {
              return Error, size, nread;
            }
            cs, size := In(next.value), Counted(mode, c, size);
          }
        case BehindCR =>
          if c == LF {
            return Final, size, nread + 1;
          }
          return Error, size, nread;
      }
      nread := nread + 1;
    }
  }

  // ---------------------------------------------------------------- the line of the RFC

  /** A chunk extension: a name, and perhaps a value that is a token. */
  datatype Extension = Extension(name: seq<byte>, value: Option<seq<byte>>)

  predicate IsTokens(s: seq<byte>) {
    s != [] && forall i :: 0 <= i < |s| ==> IsToken(s[i])
  }

  predicate IsExtension(e: Extension) {
    IsTokens(e.name) && (e.value.Some? ==> IsTokens(e.value.value))
  }

  function ValueText(value: Option<seq<byte>>): seq<byte> {
    if value.None? then [] else [EQUALS] + value.value
  }

  function ExtensionsText(es: seq<Extension>): seq<byte> {
    if es == [] then [] else [SEMICOLON] + es[0].name + ValueText(es[0].value) + ExtensionsText(es[1..])
  }

  function HexNumber(s: seq<byte>): nat
    requires forall i :: 0 <= i < |s| ==> IsHex(s[i])
  {
    if s == [] then 0 else 16 * HexNumber(s[..|s| - 1]) + HexValue(s[|s| - 1])
  }

  /** Hexadecimal digits that come to n, chunk extensions, and CR LF. */
  ghost predicate IsLineOf(line: seq<byte>, digits: seq<byte>, es: seq<Extension>, n: nat) {
    && digits != [] && (forall i :: 0 <= i < |digits| ==> IsHex(digits[i])) && HexNumber(digits) == n
    && (forall i :: 0 <= i < |es| ==> IsExtension(es[i]))
    && line == digits + ExtensionsText(es) + [CR, LF]
  }

  ghost predicate IsSizeLine(line: seq<byte>, n: nat) {
    exists digits, es :: IsLineOf(line, digits, es, n)
  }

  /** A line without extensions. */
  lemma {:induction false} PlainLine(digits: seq<byte>)
    requires digits != [] && forall i :: 0 <= i < |digits| ==> IsHex(digits[i])
    ensures IsSizeLine(digits + [CR, LF], HexNumber(digits))
  {
    assert ExtensionsText([]) == [] && digits + [] + [CR, LF] == digits + [CR, LF];
    assert IsLineOf(digits + [CR, LF], digits, [], HexNumber(digits));
  }

  /** A run of token characters keeps the machine in a name or a value. */
  lemma {:induction false} TokensAreRead(s: seq<byte>, i: nat, j: nat, mode: Mode, v: nat)
    requires 0 < i <= j <= |s| && (mode.Name? || mode.Value?) && forall k :: i <= k < j ==> IsToken(s[k])
    ensures LineFrom(s, i, mode, v) == LineFrom(s, j, mode, v)
    decreases j - i
  {
    if i < j {
      TokensAreRead(s, i + 1, j, mode, v);
    }
  }

  /** A token behind the semicolon or the equals sign. */
  lemma {:induction false} TokenIsRead(s: seq<byte>, i: nat, j: nat, mode: Mode, v: nat)
    requires 0 < i < j <= |s| && (mode.NameStart? || mode.ValueStart?) && forall k :: i <= k < j ==> IsToken(s[k])
    ensures LineFrom(s, i, mode, v) == LineFrom(s, j, if mode.NameStart? then Name else Value, v)
  {
    TokensAreRead(s, i + 1, j, if mode.NameStart? then Name else Value, v);
  }

  /** The value of an extension, if there is one. */
  lemma {:induction false} ValueIsRead(s: seq<byte>, i: nat, j: nat, value: Option<seq<byte>>, v: nat)
    returns (mode: Mode)
    requires 0 < i <= j <= |s| && s[i..j] == ValueText(value) && (value.Some? ==> IsTokens(value.value))
    ensures MayEnd(mode) && !mode.Digits? && LineFrom(s, i, Name, v) == LineFrom(s, j, mode, v)
  {
    mode := Name;
    if value.Some? {
      mode := Value;
      assert s[i] == s[i..j][0];
      forall k | i + 1 <= k < j
        ensures IsToken(s[k])
      {
        assert s[k] == s[i..j][k - i] == value.value[k - i - 1];
      }
      TokenIsRead(s, i + 1, j, ValueStart, v);
    }
  }

  /** The parts of the first extension in front of the rest of the line. */
  lemma {:induction false} ExtensionParts(s: seq<byte>, i: nat, name: seq<byte>, value: seq<byte>, rest: seq<byte>)
    requires i <= |s| && s[i..] == [SEMICOLON] + name + value + rest
    ensures var j := i + 1 + |name|;
            && j + |value| <= |s| && s[i] == SEMICOLON && s[i + 1..j] == name && s[j..j + |value|] == value
            && s[j + |value|..] == rest
  {
    var j := i + 1 + |name|;
    var t := s[i..];
    assert t[0] == s[i] && t[1..1 + |name|] == s[i + 1..j];
    assert t[1 + |name|..1 + |name| + |value|] == s[j..j + |value|] && t[1 + |name| + |value|..] == s[j + |value|..];
    assert t[1..1 + |name|] == name && t[1 + |name|..1 + |name| + |value|] == value;
    assert t[1 + |name| + |value|..] == rest;
  }

  lemma {:induction false} FirstExtension(es: seq<Extension>)
    requires es != []
    ensures ExtensionsText(es) + [CR, LF]
         == [SEMICOLON] + es[0].name + ValueText(es[0].value) + (ExtensionsText(es[1..]) + [CR, LF])
  {
  }

  lemma {:induction false} LineEnds(s: seq<byte>, i: nat, mode: Mode, v: nat)
    requires 0 < i <= |s| && MayEnd(mode) && s[i..] == [CR, LF]
    ensures LineFrom(s, i, mode, v) == Size(v, |s|)
  {
    assert s[i] == s[i..][0] && s[i + 1] == s[i..][1] && |s| == i + 2;
  }

  lemma {:induction false} OneExtensionIsRead(s: seq<byte>, i: nat, j: nat, k: nat, e: Extension, mode: Mode, v: nat)
    returns (behind: Mode)
    requires 0 < i && i + 1 <= j <= k <= |s| && MayEnd(mode) && IsExtension(e)
    requires s[i] == SEMICOLON && s[i + 1..j] == e.name && s[j..k] == ValueText(e.value)
    ensures MayEnd(behind) && LineFrom(s, i, mode, v) == LineFrom(s, k, behind, v)
  {
    forall m | i + 1 <= m < j
      ensures IsToken(s[m])
    {
      assert s[m] == s[i + 1..j][m - i - 1];
    }
    TokenIsRead(s, i + 1, j, NameStart, v);
    behind := ValueIsRead(s, j, k, e.value, v);
  }

  lemma {:induction false} ExtensionIsRead(s: seq<byte>, i: nat, e: Extension, rest: seq<byte>, mode: Mode, v: nat)
    returns (k: nat, behind: Mode)
    requires 0 < i <= |s| && MayEnd(mode) && IsExtension(e)
    requires s[i..] == [SEMICOLON] + e.name + ValueText(e.value) + rest
    ensures 0 < k <= |s| && s[k..] == rest && MayEnd(behind) && LineFrom(s, i, mode, v) == LineFrom(s, k, behind, v)
  {
    hide *;
    var value := ValueText(e.value);
    ExtensionParts(s, i, e.name, value, rest);
    k := i + 1 + |e.name| + |value|;
    behind := OneExtensionIsRead(s, i, i + 1 + |e.name|, k, e, mode, v);
  }

  /** The first extension and the rest of the line. */
  lemma {:induction false} FirstIsRead(s: seq<byte>, i: nat, es: seq<Extension>, mode: Mode, v: nat)
    returns (k: nat, behind: Mode)
    requires 0 < i <= |s| && MayEnd(mode) && es != [] && IsExtension(es[0])
    requires s[i..] == ExtensionsText(es) + [CR, LF]
    ensures 0 < k <= |s| && s[k..] == ExtensionsText(es[1..]) + [CR, LF]
    ensures MayEnd(behind) && LineFrom(s, i, mode, v) == LineFrom(s, k, behind, v)
  {
    hide *;
    FirstExtension(es);
    k, behind := ExtensionIsRead(s, i, es[0], ExtensionsText(es[1..]) + [CR, LF], mode, v);
  }

  lemma {:induction false} ExtensionsAreRead(s: seq<byte>, i: nat, es: seq<Extension>, mode: Mode, v: nat)
    requires 0 < i <= |s| && MayEnd(mode) && s[i..] == ExtensionsText(es) + [CR, LF]
    requires forall k :: 0 <= k < |es| ==> IsExtension(es[k])
    ensures LineFrom(s, i, mode, v) == Size(v, |s|)
    decreases |es|
  {
    if es == [] {
      LineEnds(s, i, mode, v);
    } else {
      var k, behind := FirstIsRead(s, i, es, mode, v);
      ExtensionsAreRead(s, k, es[1..], behind, v);
    }
  }

  lemma {:induction false} DigitsAreRead(line: seq<byte>, digits: seq<byte>, i: nat, v: nat)
    requires 0 < i <= |digits| <= |line| && digits == line[..|digits|]
    requires forall j :: 0 <= j < |digits| ==> IsHex(digits[j])
    requires v == HexNumber(digits[..i])
    ensures LineFrom(line, i, Digits, v) == LineFrom(line, |digits|, Digits, HexNumber(digits))
    decreases |digits| - i
  {
    if i == |digits| {
      assert digits[..i] == digits;
    } else {
      assert digits[..i + 1][..i] == digits[..i];
      DigitsAreRead(line, digits, i + 1, 16 * v + HexValue(line[i]));
    }
  }

  lemma {:induction false} FirstDigit(digits: seq<byte>)
    requires digits != [] && forall j :: 0 <= j < |digits| ==> IsHex(digits[j])
    ensures HexNumber(digits[..1]) == HexValue(digits[0])
  {
    assert digits[..1] == [digits[0]] && digits[..1][..0] == [];
  }

  /** The machine accepts every line of the RFC whose extension values are tokens, and finds its size. */
  lemma {:induction false} SizeLineIsRead(line: seq<byte>, n: nat)
    requires IsSizeLine(line, n)
    ensures LineOf(line) == Size(n, |line|)
  {
    hide LineFrom, ExtensionsText;
    var digits, es :| IsLineOf(line, digits, es, n);
    assert digits == line[..|digits|] && line[|digits|..] == ExtensionsText(es) + [CR, LF];
    FirstDigit(digits);
    DigitsAreRead(line, digits, 1, HexValue(line[0]));
    ExtensionsAreRead(line, |digits|, es, Digits, n);
  }

  /** The codes of characters. */
  function Ascii(s: string): (b: seq<byte>)
    requires forall i :: 0 <= i < |s| ==> s[i] as int < 256
    ensures |b| == |s| && forall i :: 0 <= i < |s| ==> b[i] == s[i] as int
  {
    if s == [] then []
    else
      var last: byte := s[|s| - 1] as int;
      Ascii(s[..|s| - 1]) + [last]
  }

  /** The characters the machine takes for digits have their places in the two alphabets as values. */
  lemma DigitsHaveValues(k: nat)
    requires k < 16
    ensures IsHex(LOWER_HEX[k] as int) && HexValue(LOWER_HEX[k] as int) == k
    ensures IsHex(UPPER_HEX[k] as int) && HexValue(UPPER_HEX[k] as int) == k
  {
  }

  /** And there are no others. */
  lemma OnlyDigits(c: byte)
    requires IsHex(c)
    ensures LOWER_HEX[HexValue(c)] as int == c || UPPER_HEX[HexValue(c)] as int == c
  {
  }

  /** The other characters the machine tells apart (section 3.2.6 of RFC 7230). */
  lemma CharacterClasses(c: char)
    requires c as int < 256
    ensures IsToken(c as int)
      <==> '0' <= c <= '9' || 'a' <= c <= 'z' || 'A' <= c <= 'Z' || c in "!#$%&'*+-.^_`|~"
    ensures CR == '\r' as int && LF == '\n' as int && SEMICOLON == ';' as int && EQUALS == '=' as int
  {
  }

  predicate IsAlphabet(digits: string) {
    |digits| == 16 && forall k :: 0 <= k < 16 ==>
      digits[k] as int < 256 && IsHex(digits[k] as int) && HexValue(digits[k] as int) == k
  }

  lemma BothAreAlphabets()
    ensures IsAlphabet(LOWER_HEX) && IsAlphabet(UPPER_HEX)
  {
    forall k | 0 <= k < 16
      ensures IsHex(LOWER_HEX[k] as int) && HexValue(LOWER_HEX[k] as int) == k
      ensures IsHex(UPPER_HEX[k] as int) && HexValue(UPPER_HEX[k] as int) == k
    {
      DigitsHaveValues(k);
    }
  }

  predicate IsHexText(s: string) {
    forall i :: 0 <= i < |s| ==> s[i] as int < 256 && IsHex(s[i] as int)
  }

  lemma TextIsDigits(s: string)
    requires IsHexText(s)
    ensures forall i :: 0 <= i < |s| ==> s[i] as int < 256
    ensures forall i :: 0 <= i < |s| ==> IsHex(Ascii(s)[i])
  {
  }

  lemma EmptyText()
    ensures IsHexText([]) && HexNumber(Ascii([])) == 0
  {
  }

  lemma {:induction false} TextHasValue(digits: string, n: nat)
    requires IsAlphabet(digits)
    ensures IsHexText(HexText(digits, n)) && HexNumber(Ascii(HexText(digits, n))) == n
  {
    hide HexNumber, Ascii, IsHexText;
    var s := HexText(digits, n);
    if n < 16 {
      EmptyText();
      NumberMore([], digits[n]);
      assert s == [] + [digits[n]];
    } else {
      TextHasValue(digits, n / 16);
      NumberMore(HexText(digits, n / 16), digits[n % 16]);
    }
  }

  lemma {:induction false} NumberMore(front: string, c: char)
    requires IsHexText(front) && c as int < 256 && IsHex(c as int)
    ensures IsHexText(front + [c])
    ensures HexNumber(Ascii(front + [c])) == 16 * HexNumber(Ascii(front)) + HexValue(c as int)
  {
    var b := Ascii(front + [c]);
    assert b[..|b| - 1] == Ascii(front) && b[|b| - 1] == c as int;
  }

  /** So the line printed for a number, in lower or upper case, is read as that number. */
  lemma {:induction false} PrintedSizeIsRead(digits: string, n: nat)
    requires digits == LOWER_HEX || digits == UPPER_HEX
    ensures IsHexText(HexText(digits, n))
    ensures LineOf(Ascii(HexText(digits, n)) + [CR, LF]) == Size(n, |HexText(digits, n)| + 2)
  {
    hide *;
    BothAreAlphabets();
    TextHasValue(digits, n);
    TextIsDigits(HexText(digits, n));
    PlainLine(Ascii(HexText(digits, n)));
    SizeLineIsRead(Ascii(HexText(digits, n)) + [CR, LF], n);
  }

  /** The same section allows a quoted string for a value; the machine refuses it. */
  lemma {:induction false} QuotedValueIsBad()
    ensures LineOf([49, SEMICOLON, 97, EQUALS, 34, 98, 34, CR, LF]) == Bad
  {
    var s := [49, SEMICOLON, 97, EQUALS, 34, 98, 34, CR, LF];
    assert LineFrom(s, 4, ValueStart, 1) == Bad;
    assert LineFrom(s, 2, NameStart, 1) == LineFrom(s, 3, Name, 1);
  }

  // ---------------------------------------------------------------- a line in two parts

  /**
   * From byte j of b on, the machine goes the same way whether a stands in front or not; a larger start gives a larger
   * size.
   */
  lemma {:induction false} SameWay(a: seq<byte>, b: seq<byte>, j: nat, mode: Mode, v: nat, w: nat)
    requires 0 < j <= |b| && w <= v
    ensures LineFrom(b, j, mode, w).Size? <==> LineFrom(a + b, |a| + j, mode, v).Size?
    ensures LineFrom(b, j, mode, w).Size? ==>
              && LineFrom(a + b, |a| + j, mode, v).used == |a| + LineFrom(b, j, mode, w).used
              && (LineFrom(a + b, |a| + j, mode, v).n == LineFrom(b, j, mode, w).n <==> v == w)
              && LineFrom(b, j, mode, w).n <= LineFrom(a + b, |a| + j, mode, v).n
    decreases |b| - j
  {
    if j < |b| {
      assert (a + b)[|a| + j] == b[j];
      if j + 1 < |b| {
        assert (a + b)[|a| + j + 1] == b[j + 1];
      }
      if GoesOn(mode, b[j]) {
        SameWay(a, b, j + 1, Next(mode, b[j]).value, Counted(mode, b[j], v), Counted(mode, b[j], w));
      }
    }
  }

  /** Behind the size nothing changes it. */
  lemma {:induction false} SizeStays(s: seq<byte>, i: nat, mode: Mode, v: nat)
    requires 0 < i <= |s| && !mode.Digits? && LineFrom(s, i, mode, v).Size?
    ensures LineFrom(s, i, mode, v).n == v
    decreases |s| - i
  {
    if GoesOn(mode, s[i]) {
      SizeStays(s, i + 1, Next(mode, s[i]).value, v);
    }
  }

  /** The number that the digits from i on add to v. */
  function SizeSeen(s: seq<byte>, i: nat, v: nat): nat
    requires i <= |s|
    decreases |s| - i
  {
    if i < |s| && IsHex(s[i]) then SizeSeen(s, i + 1, 16 * v + HexValue(s[i])) else v
  }

  /** Where an unfinished line that does not end in a CR leaves the machine. */
  lemma {:induction false} UnfinishedAt(a: seq<byte>, b: seq<byte>, i: nat, mode: Mode, v: nat)
    returns (mode': Mode, v': nat)
    requires 0 < i <= |a| && LineFrom(a, i, mode, v) == Incomplete && a[|a| - 1] != CR
    ensures LineFrom(a + b, i, mode, v) == LineFrom(a + b, |a|, mode', v')
    ensures !mode.Digits? ==> !mode'.Digits? && v' == v
    ensures mode.Digits? ==>
              && (mode'.Digits? <==> SEMICOLON !in a[i..]) && (!mode'.Digits? ==> v' == SizeSeen(a, i, v))
              && (mode'.Digits? ==> (v' == 0 <==> v == 0 && forall j :: i <= j < |a| ==> a[j] == 48))
    decreases |a| - i
  {
    mode', v' := mode, v;
    if i < |a| {
      mode', v' := UnfinishedAt(a, b, i + 1, Next(mode, a[i]).value, Counted(mode, a[i], v));
      assert a[i..] == [a[i]] + a[i + 1..];
    }
  }

  lemma {:induction false} CRThenLF(a: seq<byte>, b: seq<byte>, i: nat, mode: Mode, v: nat)
    requires 0 < i <= |a| && LineFrom(a, i, mode, v) == Incomplete && a[|a| - 1] == CR
    requires LineFrom(a + b, i, mode, v).Size? && b != [] && a[i - 1] != CR
    ensures b[0] == LF
    decreases |a| - i
  {
    if GoesOn(mode, a[i]) {
      CRThenLF(a, b, i + 1, Next(mode, a[i]).value, Counted(mode, a[i], v));
    }
  }

  /** A size line ends with its first LF, and an unfinished one has none. */
  lemma {:induction false} EndsAtLF(s: seq<byte>, i: nat, mode: Mode, v: nat)
    requires 0 < i <= |s|
    ensures LineFrom(s, i, mode, v) == Incomplete ==> forall j :: i <= j < |s| ==> s[j] != LF
    ensures LineFrom(s, i, mode, v).Size? ==>
              var used := LineFrom(s, i, mode, v).used;
              s[used - 1] == LF && forall j :: i <= j < used - 1 ==> s[j] != LF
    decreases |s| - i
  {
    if i < |s| && GoesOn(mode, s[i]) {
      EndsAtLF(s, i + 1, Next(mode, s[i]).value, Counted(mode, s[i], v));
    }
  }

  /** So where two readings both find a size, they end in the same place. */
  lemma {:induction false} SameEnd(a: seq<byte>, b: seq<byte>)
    requires a != [] && LineOf(a) == Incomplete && LineOf(a + b).Size? && LineOf(b).Size?
    ensures LineOf(b).used + |a| == LineOf(a + b).used
  {
    EndsAtLF(a, 1, Digits, HexValue(a[0]));
    EndsAtLF(b, 1, Digits, HexValue(b[0]));
    EndsAtLF(a + b, 1, Digits, HexValue((a + b)[0]));
    var x, y := LineOf(b).used - 1, LineOf(a + b).used - 1;
    assert (a + b)[|a| + x] == b[x];
    assert forall j :: 0 <= j < |a| ==> (a + b)[j] == a[j];
    assert forall j :: 0 <= j < |b| ==> b[j] == (a + b)[|a| + j];
  }

  /** Whether what is left of the size in b is all of it: only zeros were cut off, or the number stands in b again. */
  predicate SameSizeIn(a: seq<byte>, b: seq<byte>)
    requires a != [] && b != []
  {
    if SEMICOLON in a then LineOf(b).Size? && LineOf(b).n == SizeSeen(a, 0, 0)
    else IsHex(b[0]) && forall j :: 0 <= j < |a| ==> a[j] == 48
  }

  /** The size on the whole line: what a has of it if that is all, and else no less than what b reads as. */
  lemma {:induction false} SizeOfSplit(a: seq<byte>, b: seq<byte>)
    requires a != [] && b != [] && LineOf(a) == Incomplete && LineOf(a + b).Size? && LineOf(b).Size?
    ensures if SEMICOLON in a then LineOf(a + b).n == SizeSeen(a, 0, 0) else LineOf(b).n <= LineOf(a + b).n
  {
    assert (a + b)[0] == a[0] && (a + b)[|a|] == b[0];
    if a[|a| - 1] == CR {
      CRThenLF(a, b, 1, Digits, HexValue(a[0]));
    } else {
      var mode, v := UnfinishedAt(a, b, 1, Digits, HexValue(a[0]));
      assert a == [a[0]] + a[1..];
      if mode.Digits? {
        SameWay(a, b, 1, Digits, 16 * v + HexValue(b[0]), HexValue(b[0]));
      } else {
        SizeStays(a + b, |a|, mode, v);
      }
    }
  }

  /**
   * A chunk-size line a + b that arrives in two parts: after a, the machine starts anew on b. It finds the right
   * size exactly when all that a held was leading zeros, with digits in b; or, if a reached into the extensions, when
   * the rest of them happens to read as a line of that size.
   */
  lemma {:induction false} SplitLine(a: seq<byte>, b: seq<byte>)
    requires a != [] && LineOf(a) == Incomplete && LineOf(a + b).Size? && b != []
    ensures LineOf(b).Size? && LineOf(b).n == LineOf(a + b).n && LineOf(b).used + |a| == LineOf(a + b).used
      <==> SameSizeIn(a, b)
  {
    assert (a + b)[0] == a[0] && (a + b)[|a|] == b[0];
    if LineOf(b).Size? {
      SameEnd(a, b);
    }
    if a[|a| - 1] == CR {
      CRThenLF(a, b, 1, Digits, HexValue(a[0]));
    } else {
      var mode, v := UnfinishedAt(a, b, 1, Digits, HexValue(a[0]));
      assert a == [a[0]] + a[1..];
      if mode.Digits? {
        DigitsSplit(a, b, v);
      } else {
        SizeStays(a + b, |a|, mode, v);
      }
    }
  }

  /** The cut is in the size. */
  lemma {:induction false} DigitsSplit(a: seq<byte>, b: seq<byte>, v: nat)
    requires a != [] && b != [] && LineOf(a + b) == LineFrom(a + b, |a|, Digits, v) && LineOf(a + b).Size?
    requires v == 0 <==> forall j :: 0 <= j < |a| ==> a[j] == 48
    ensures LineOf(b).Size? && LineOf(b).n == LineOf(a + b).n <==> IsHex(b[0]) && v == 0
  {
    assert (a + b)[|a|] == b[0];
    if IsHex(b[0]) {
      SameWay(a, b, 1, Digits, 16 * v + HexValue(b[0]), HexValue(b[0]));
    }
  }

  /** "10" split after the "1" is read as 0, the end of the body. */
  lemma {:induction false} SplitLineEndsBody()
    ensures LineOf([49, 48, CR, LF]) == Size(16, 4) && LineOf([49]) == Incomplete && LineOf([48, CR, LF]) == Size(0, 3)
  {
    assert LineFrom([49, 48, CR, LF], 2, Digits, 16) == Size(16, 4);
  }
}
