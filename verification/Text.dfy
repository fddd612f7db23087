/** Text handling that the protocol parsers share: Go strings are byte sequences. */
module Text {
  import opened Bytes
  import opened Wrappers

  /** The bytes of an ASCII text; any other character has no byte of its own. */
  function Ascii(text: string): (r: bytes)
    ensures |r| == |text|
  {
    seq(|text|, i requires 0 <= i < |text| => if text[i] as int < 128 then text[i] as int else 0)
  }

  const LF: byte := 10
  const CR: byte := 13
  const CRLF: bytes := [13, 10]
  const SPACE: byte := 32
  const PLUS: byte := 43
  const MINUS: byte := 45
  const COLON: byte := 58
  const SEMICOLON: byte := 59
  const UNDERSCORE: byte := 95

  /** The white space that `strings.TrimSpace` cuts off, as far as it is ASCII. */
  predicate IsSpace(b: byte) {
    b == SPACE || 9 <= b <= 13
  }

  function TrimLeft(s: bytes): (r: bytes)
    ensures |r| <= |s|
  {
    if s != [] && IsSpace(s[0]) then TrimLeft(s[1..]) else s
  }

  function TrimRight(s: bytes): (r: bytes)
    ensures |r| <= |s|
  {
    if s != [] && IsSpace(s[|s| - 1]) then TrimRight(s[..|s| - 1]) else s
  }

  function TrimSpace(s: bytes): bytes {
    TrimRight(TrimLeft(s))
  }

  /** `strings.TrimRight(s, "\r\n")`. */
  function TrimLineEnd(s: bytes): bytes {
    if s != [] && (s[|s| - 1] == CR || s[|s| - 1] == LF) then TrimLineEnd(s[..|s| - 1]) else s
  }

  /** The first index of b in s, or the length of s. */
  function Find(s: bytes, b: byte): (i: nat)
    ensures i <= |s| && (i < |s| ==> s[i] == b) && b !in s[..i]
  {
    if s == [] || s[0] == b then 0 else 1 + Find(s[1..], b)
  }

  lemma {:induction false} FindAt(s: bytes, b: byte, tail: bytes)
    requires b !in s
    ensures Find(s + [b] + tail, b) == |s|
  {
    var all := s + [b] + tail;
    if s != [] {
      assert all[0] == s[0] && all[1..] == s[1..] + [b] + tail;
      FindAt(s[1..], b, tail);
    }
  }

  /** `readHTTPLine`: the text up to the next LF without its line end, and what follows. */
  function Line(s: bytes): (r: Option<(bytes, bytes)>)
    ensures r.Some? ==> |r.value.1| < |s|
  {
    var i := Find(s, LF);
    if i == |s| then None else Some((TrimLineEnd(s[..i + 1]), s[i + 1..]))
  }

  lemma LineOf(text: bytes, tail: bytes)
    requires LF !in text
    ensures Line(text + [LF] + tail) == Some((TrimLineEnd(text + [LF]), tail))
  {
    FindAt(text, LF, tail);
    var s := text + [LF] + tail;
    assert s[..|text| + 1] == text + [LF] && s[|text| + 1..] == tail;
  }

  /** Every line that was read is text without LF, up to its line end, in front of what follows. */
  lemma LineSplits(s: bytes) returns (text: bytes)
    requires Line(s).Some?
    ensures LF !in text && Line(s).value.0 == TrimLineEnd(text + [LF])
    ensures s == text + [LF] + Line(s).value.1
  {
    text := s[..Find(s, LF)];
    assert s[..|text| + 1] == text + [LF];
  }

  /** A line that only the added bytes complete ends among them. */
  lemma LineOfCut(s: bytes, more: bytes)
    requires Line(s).None? && Line(s + more).Some?
    ensures |Line(s + more).value.1| < |more|
  {
    var i := Find(s + more, LF);
    assert LF !in s by { assert s[..Find(s, LF)] == s; }
    assert (s + more)[i] == LF;
  }

  /** A line that is complete stays the same when more bytes follow. */
  lemma LineExtends(s: bytes, more: bytes)
    requires Line(s).Some?
    ensures Line(s + more) == Some((Line(s).value.0, Line(s).value.1 + more))
  {
    var i := Find(s, LF);
    assert s + more == s[..i] + [LF] + (s[i + 1..] + more);
    FindAt(s[..i], LF, s[i + 1..] + more);
    assert (s + more)[..i + 1] == s[..i + 1] && (s + more)[i + 1..] == s[i + 1..] + more;
  }

  function LowerCase(b: byte): byte {
    if 65 <= b <= 90 then b + 32 else b
  }

  function DigitValue(b: byte): nat {
    if 48 <= b <= 57 then b - 48
    else if 97 <= LowerCase(b) <= 122 then LowerCase(b) - 87
    else 255
  }

  /** The number that the digits s stand for, if they all are digits of the base. */
  function DigitsValue(s: bytes, base: nat): Option<nat> {
    if s == [] then Some(0)
    else
      match DigitsValue(s[..|s| - 1], base)
      case None => None
      case Some(v) =>
        var d := DigitValue(s[|s| - 1]);
        if d < base then Some(v * base + d) else None
  }

  /** `strconv.ParseInt(s, base, 64)` for a base from 2 to 36. */
  function ParseInt(s: bytes, base: nat): (r: Option<int>)
    ensures r.Some? ==> -INT64_MAX - 1 <= r.value <= INT64_MAX
  {
    var signed := s != [] && (s[0] == PLUS || s[0] == MINUS);
    var digits := if signed then s[1..] else s;
    if digits == [] then None
    else
      match DigitsValue(digits, base)
      case None => None
      case Some(n) =>
        var v: int := n;
        if signed && s[0] == MINUS then if v <= INT64_MAX + 1 then Some(-v) else None
        else if v <= INT64_MAX then Some(v) else None
  }

  /** `strings.EqualFold` on ASCII text. */
  predicate EqualFold(a: bytes, b: bytes) {
    |a| == |b| && forall i :: 0 <= i < |a| ==> LowerCase(a[i]) == LowerCase(b[i])
  }

  lemma TrimLineEndDrops(s: bytes, c: byte)
    requires c == CR || c == LF
    ensures TrimLineEnd(s + [c]) == TrimLineEnd(s)
  {
    assert (s + [c])[..|s|] == s;
  }

  lemma TrimLineEndOf(s: bytes)
    requires s == [] || (s[|s| - 1] != CR && s[|s| - 1] != LF)
    ensures TrimLineEnd(s + [CR] + [LF]) == s
  {
    assert TrimLineEnd(s) == s;
    hide TrimLineEnd;
    TrimLineEndDrops(s + [CR], LF);
    TrimLineEndDrops(s, CR);
  }

  /** Text that neither begins nor ends with white space is left alone. */
  predicate Trimmed(s: bytes) {
    s == [] || (!IsSpace(s[0]) && !IsSpace(s[|s| - 1]))
  }

  lemma TrimmedStays(s: bytes)
    requires Trimmed(s)
    ensures TrimSpace(s) == s
  {
  }

  lemma {:induction false} TrimLeftIs(s: bytes)
    ensures TrimLeft(s) == [] || !IsSpace(TrimLeft(s)[0])
    ensures TrimLeft(s) == s[|s| - |TrimLeft(s)|..]
  {
    if s != [] && IsSpace(s[0]) {
      TrimLeftIs(s[1..]);
    }
  }

  lemma {:induction false} TrimRightIs(s: bytes)
    ensures TrimRight(s) == [] || !IsSpace(TrimRight(s)[|TrimRight(s)| - 1])
    ensures TrimRight(s) == s[..|TrimRight(s)|]
  {
    if s != [] && IsSpace(s[|s| - 1]) {
      TrimRightIs(s[..|s| - 1]);
    }
  }

  /** Trimming gives trimmed text, made of bytes of the original. */
  lemma TrimSpaceTrims(s: bytes)
    ensures Trimmed(TrimSpace(s))
    ensures forall b :: b in TrimSpace(s) ==> b in s
  {
    TrimLeftIs(s);
    TrimRightIs(TrimLeft(s));
  }

  function HexDigit(d: nat): byte
    requires d < 16
  {
    if d < 10 then 48 + d else 87 + d
  }

  function Hex(n: nat): (r: bytes)
    ensures |r| > 0
    ensures forall i :: 0 <= i < |r| ==> 48 <= r[i] <= 57 || 97 <= r[i] <= 102
  {
    if n < 16 then [HexDigit(n)] else Hex(n / 16) + [HexDigit(n % 16)]
  }

  lemma {:induction false} HexValue(n: nat)
    ensures DigitsValue(Hex(n), 16) == Some(n)
  {
    if n >= 16 {
      HexValue(n / 16);
      assert Hex(n)[..|Hex(n)| - 1] == Hex(n / 16);
    } else {
      assert Hex(n)[..0] == [];
    }
  }

  /** The text up to the first white space. */
  function FirstWord(s: bytes): (r: bytes)
    ensures |r| <= |s|
  {
    if s == [] || IsSpace(s[0]) then [] else [s[0]] + FirstWord(s[1..])
  }

  /** The second of the fields of s (`strings.Fields`), empty if there is none. */
  function SecondField(s: bytes): bytes {
    var t := TrimLeft(s);
    FirstWord(TrimLeft(t[|FirstWord(t)|..]))
  }

  /** `strconv.Itoa` of a number that is not negative. */
  function Decimal(n: nat): (r: bytes)
    ensures |r| > 0 && forall i :: 0 <= i < |r| ==> 48 <= r[i] <= 57
  {
    if n < 10 then [48 + n] else Decimal(n / 10) + [48 + n % 10]
  }

  lemma {:induction false} DecimalValue(n: nat)
    ensures DigitsValue(Decimal(n), 10) == Some(n)
  {
    if n >= 10 {
      DecimalValue(n / 10);
      assert Decimal(n)[..|Decimal(n)| - 1] == Decimal(n / 10);
    } else {
      assert Decimal(n)[..0] == [];
    }
  }

  /** The decimal digits of a number parse to it. */
  lemma DecimalParses(n: nat)
    requires n <= INT64_MAX
    ensures ParseInt(Decimal(n), 10) == Some(n)
  {
    DecimalValue(n);
    hide Decimal, DigitsValue;
  }

  lemma {:induction false} FirstWordIs(word: bytes, rest: bytes)
    requires forall i :: 0 <= i < |word| ==> !IsSpace(word[i])
    requires rest == [] || IsSpace(rest[0])
    ensures FirstWord(word + rest) == word
  {
    if word == [] {
      assert word + rest == rest;
    } else {
      assert (word + rest)[0] == word[0] && (word + rest)[1..] == word[1..] + rest;
      FirstWordIs(word[1..], rest);
    }
  }

  /** The second field of a line that begins with two words. */
  lemma SecondFieldIs(first: bytes, second: bytes, rest: bytes)
    requires first != [] && second != []
    requires forall i :: 0 <= i < |first| ==> !IsSpace(first[i])
    requires forall i :: 0 <= i < |second| ==> !IsSpace(second[i])
    requires rest == [] || IsSpace(rest[0])
    ensures SecondField(first + ([SPACE] + (second + rest))) == second
  {
    var s, tail := first + ([SPACE] + (second + rest)), second + rest;
    FirstWordIs(first, [SPACE] + tail);
    FirstWordIs(second, rest);
    hide FirstWord;
    assert s[0] == first[0];
    assert TrimLeft(s) == s;
    assert s[|first|..] == [SPACE] + tail;
    assert ([SPACE] + tail)[1..] == tail && tail[0] == second[0];
    assert TrimLeft([SPACE] + tail) == TrimLeft(tail);
  }

  // ----- what the functions mean

  /** Each byte of a text is the code of its character. */
  lemma AsciiAt(text: string, i: nat)
    requires i < |text| && text[i] as int < 128
    ensures Ascii(text)[i] == text[i] as int
  {
  }

  /** The digits, in both cases of the letters. */
  lemma DigitValues(i: nat)
    requires i < 16
    ensures DigitValue(Ascii("0123456789abcdef")[i]) == i && DigitValue(Ascii("0123456789ABCDEF")[i]) == i
  {
  }

  /** No other byte is a digit of base 16 or less. */
  lemma OnlyDigits(b: byte)
    requires DigitValue(b) < 16
    ensures b == Ascii("0123456789abcdef")[DigitValue(b)] || b == Ascii("0123456789ABCDEF")[DigitValue(b)]
  {
  }

  /** A further digit multiplies the number by the base and adds to it; a byte that is no digit of
      the base spoils it. */
  lemma DigitsAppend(s: bytes, b: byte, base: nat)
    ensures DigitsValue([], base) == Some(0)
    ensures DigitsValue(s + [b], base) ==
            if DigitsValue(s, base).Some? && DigitValue(b) < base
            then Some(DigitsValue(s, base).value * base + DigitValue(b)) else None
  {
    assert (s + [b])[..|s|] == s;
  }

  /** Numbers with and without a sign, within 64 bits. */
  lemma ParseIntMeans(digits: bytes, base: nat)
    requires digits == [] || (digits[0] != PLUS && digits[0] != MINUS)
    ensures var fine := digits != [] && DigitsValue(digits, base).Some?;
            var v: int := if fine then DigitsValue(digits, base).value else 0;
            && ParseInt(digits, base) == (if fine && v <= INT64_MAX then Some(v) else None)
            && ParseInt([43] + digits, base) == (if fine && v <= INT64_MAX then Some(v) else None)
            && ParseInt([45] + digits, base) == (if fine && v <= INT64_MAX + 1 then Some(-v) else None)
  {
    hide DigitsValue;
    assert ([43] + digits)[1..] == digits && ([45] + digits)[1..] == digits;
  }

  /** The 26 letters lose their case, everything else stays. */
  lemma LowerCases(b: byte)
    ensures LowerCase(b) == if b in Ascii("ABCDEFGHIJKLMNOPQRSTUVWXYZ") then b + 32 else b
  {
    var letters := Ascii("ABCDEFGHIJKLMNOPQRSTUVWXYZ");
    assert forall i :: 0 <= i < 26 ==> letters[i] == 65 + i;
    assert 65 <= b <= 90 ==> letters[if 65 <= b <= 90 then b - 65 else 0] == b;
  }

  predicate AllSpace(s: bytes) {
    forall i :: 0 <= i < |s| ==> s[i] == 32 || 9 <= s[i] <= 13
  }

  lemma {:induction false} TrimLeftOf(a: bytes, s: bytes)
    requires AllSpace(a)
    ensures TrimLeft(a + s) == TrimLeft(s)
  {
    if a == [] {
      assert a + s == s;
    } else {
      assert (a + s)[0] == a[0] && (a + s)[1..] == a[1..] + s;
      TrimLeftOf(a[1..], s);
    }
  }

  lemma {:induction false} TrimRightOf(s: bytes, b: bytes)
    requires AllSpace(b)
    ensures TrimRight(s + b) == TrimRight(s)
  {
    if b == [] {
      assert s + b == s;
    } else {
      var n := |b| - 1;
      assert (s + b)[|s| + n] == b[n] && (s + b)[..|s| + n] == s + b[..n];
      TrimRightOf(s, b[..n]);
    }
  }

  /** Trimming cuts off the white space around a text and nothing of the text. */
  lemma TrimSpaceOf(a: bytes, s: bytes, b: bytes)
    requires AllSpace(a) && AllSpace(b) && Trimmed(s)
    ensures TrimSpace(a + s + b) == s
  {
    assert a + s + b == a + (s + b);
    TrimLeftOf(a, s + b);
    if s == [] {
      assert s + b == b && b + [] == b;
      TrimLeftOf(b, []);
    } else {
      assert (s + b)[0] == s[0];
      assert TrimLeft(s + b) == s + b;
      TrimRightOf(s, b);
    }
  }

  /** A line loses all CR and LF at its end and nothing else. */
  lemma {:induction false} TrimLineEndAll(s: bytes, end: bytes)
    requires s == [] || (s[|s| - 1] != 13 && s[|s| - 1] != 10)
    requires forall i :: 0 <= i < |end| ==> end[i] == 13 || end[i] == 10
    ensures TrimLineEnd(s + end) == s
  {
    if end == [] {
      assert s + end == s;
    } else {
      var n := |end| - 1;
      assert s + end == (s + end[..n]) + [end[n]];
      TrimLineEndDrops(s + end[..n], end[n]);
      TrimLineEndAll(s, end[..n]);
    }
  }
}
