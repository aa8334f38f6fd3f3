/** Numbers as text: what std::stoi and std::stoul accept, what the emulator
    and the hex writers print, and that reading inverts printing. */
module Numerals {
  import opened Bits
  import opened Wrappers

  predicate IsSpace(c: char) {
    c == ' ' || 9 <= c as int <= 13
  }

  predicate IsDigit(c: char) {
    '0' <= c <= '9'
  }

  function DropSpaces(s: string): string {
    if s != "" && IsSpace(s[0]) then DropSpaces(s[1..]) else s
  }

  /** The longest prefix of decimal digits. */
  function Digits(s: string): (d: string)
    ensures forall i :: 0 <= i < |d| ==> IsDigit(d[i])
  {
    if s != "" && IsDigit(s[0]) then [s[0]] + Digits(s[1..]) else ""
  }

  function DigitValue(c: char): int {
    c as int - '0' as int
  }

  function DecimalValue(d: string): int {
    if d == "" then 0 else 10 * DecimalValue(d[..|d| - 1]) + DigitValue(d[|d| - 1])
  }

  /** An optional sign: whether it is a minus, and what follows it. */
  function Sign(s: string): (bool, string) {
    if s != "" && s[0] == '-' then (true, s[1..])
    else if s != "" && s[0] == '+' then (false, s[1..])
    else (false, s)
  }

  /** std::stoi; None for both of its exceptions. */
  function Stoi(s: string): Option<int32> {
    var (negative, body) := Sign(DropSpaces(s));
    var d := Digits(body);
    var v := if negative then -DecimalValue(d) else DecimalValue(d);
    if d == "" then None
    else if -0x8000_0000 <= v < 0x8000_0000 then Some(v)
    else None
  }

  function DigitChar(v: nat): (c: char)
    requires v < 10
    ensures IsDigit(c) && DigitValue(c) == v
  {
    ('0' as int + v) as char
  }

  function ShowNat(n: nat): (s: string)
    ensures s != "" && forall i :: 0 <= i < |s| ==> IsDigit(s[i])
  {
    if n < 10 then [DigitChar(n)] else ShowNat(n / 10) + [DigitChar(n % 10)]
  }

  /** Python's str of an integer. */
  function ShowInt(n: int): string {
    if n < 0 then "-" + ShowNat(Magnitude(n)) else ShowNat(Magnitude(n))
  }

  lemma {:induction false} ShowNatValue(n: nat)
    ensures DecimalValue(ShowNat(n)) == n
  {
    if n < 10 {
      assert [DigitChar(n)][..0] == "";
    } else {
      ShowNatValue(n / 10);
      assert ShowNat(n)[..|ShowNat(n)| - 1] == ShowNat(n / 10);
    }
  }

  lemma {:induction false} DigitsStop(d: string, rest: string)
    requires forall i :: 0 <= i < |d| ==> IsDigit(d[i])
    requires rest == "" || !IsDigit(rest[0])
    ensures Digits(d + rest) == d
  {
    if d == "" {
      assert d + rest == rest;
    } else {
      DigitsStop(d[1..], rest);
      assert (d + rest)[1..] == d[1..] + rest;
    }
  }

  /** stoi of text whose sign and digits are known. */
  lemma StoiParts(s: string, negative: bool, digits: string, rest: string)
    requires DropSpaces(s) == s && Sign(s) == (negative, digits + rest)
    requires digits != "" && forall i :: 0 <= i < |digits| ==> IsDigit(digits[i])
    requires rest == "" || !IsDigit(rest[0])
    requires -0x8000_0000 <= (if negative then -DecimalValue(digits) else DecimalValue(digits)) < 0x8000_0000
    ensures Stoi(s) == Some(if negative then -DecimalValue(digits) else DecimalValue(digits))
  {
    DigitsStop(digits, rest);
  }

  lemma ShownSign(n: int, rest: string)
    ensures var s := ShowInt(n) + rest;
      DropSpaces(s) == s && Sign(s) == (n < 0, ShowNat(Magnitude(n)) + rest)
  {
    var digits := ShowNat(Magnitude(n));
    if n < 0 {
      assert ("-" + digits + rest)[1..] == digits + rest;
    } else {
      assert (digits + rest)[0] == digits[0] && IsDigit(digits[0]);
    }
  }

  /** stoi reads back any printed int, after spaces and before other text. */
  lemma StoiShow(n: int32, rest: string)
    requires rest == "" || !IsDigit(rest[0])
    ensures Stoi(ShowInt(n) + rest) == Some(n)
  {
    ShownSign(n, rest);
    ShowNatValue(Magnitude(n));
    StoiParts(ShowInt(n) + rest, n < 0, ShowNat(Magnitude(n)), rest);
  }

  lemma StoiShowSpaced(n: int32, rest: string)
    requires rest == "" || !IsDigit(rest[0])
    ensures Stoi(" " + ShowInt(n) + rest) == Some(n)
  {
    var s := " " + ShowInt(n) + rest;
    StoiShow(n, rest);
    assert s[1..] == ShowInt(n) + rest;
    assert DropSpaces(s) == DropSpaces(s[1..]);
  }

  /** stoi reads a printed integer exactly when it fits in an int. */
  lemma StoiOfShown(n: int)
    ensures Stoi(ShowInt(n)) == if -0x8000_0000 <= n < 0x8000_0000 then Some(n) else None
  {
    assert ShowInt(n) + "" == ShowInt(n);
    ShownSign(n, "");
    ShowNatValue(Magnitude(n));
    DigitsStop(ShowNat(Magnitude(n)), "");
  }

  // -------------------------------------------------------------------------- hex

  function HexDigitValue(c: char): (v: int)
    ensures -1 <= v < 16
  {
    if '0' <= c <= '9' then c as int - '0' as int
    else if 'a' <= c <= 'f' then c as int - 'a' as int + 10
    else if 'A' <= c <= 'F' then c as int - 'A' as int + 10
    else -1
  }

  predicate IsHex(c: char) {
    HexDigitValue(c) >= 0
  }

  function HexDigits(s: string): (d: string)
    ensures |d| <= |s| && forall i :: 0 <= i < |d| ==> IsHex(d[i])
  {
    if s != "" && IsHex(s[0]) then [s[0]] + HexDigits(s[1..]) else ""
  }

  function HexValue(d: string): (v: nat)
    requires forall i :: 0 <= i < |d| ==> IsHex(d[i])
  {
    if d == "" then 0
    else
      assert IsHex(d[|d| - 1]);
      16 * HexValue(d[..|d| - 1]) + HexDigitValue(d[|d| - 1])
  }

  /** `static_cast<uint8_t>(std::stoul(s, nullptr, 16))` of one or two characters:
      a space or a sign may take the place of a digit, and a minus negates
      modulo 2^64. A prefix 0x needs a third character. */
  function StoulByte(s: string): Option<byte>
    requires |s| <= 2
  {
    var (negative, body) := Sign(DropSpaces(s));
    var d := HexDigits(body);
    if d == "" then None
    else if negative then Some((0x1_0000_0000_0000_0000 - HexValue(d)) % 256)
    else Some(HexValue(d) % 256)
  }

  /** UartE5Interface::hex_string_to_bytes; None if any pair throws. */
  function HexToBytes(hex: string): Option<seq<byte>> {
    if hex == "" then Some([])
    else
      var n := if |hex| == 1 then 1 else 2;
      var b :- StoulByte(hex[..n]);
      var rest :- HexToBytes(hex[n..]);
      Some([b] + rest)
  }

  function Prepend(bytes: seq<byte>, rest: Option<seq<byte>>): Option<seq<byte>> {
    if rest.None? then None else Some(bytes + rest.value)
  }

  lemma PrependNothing(rest: Option<seq<byte>>)
    ensures Prepend([], rest) == rest
  {
    assert rest.Some? ==> [] + rest.value == rest.value;
  }

  lemma PrependTwice(bytes: seq<byte>, b: byte, rest: Option<seq<byte>>)
    ensures Prepend(bytes, Prepend([b], rest)) == Prepend(bytes + [b], rest)
  {
    assert rest.Some? ==> bytes + ([b] + rest.value) == (bytes + [b]) + rest.value;
  }

  method HexStringToBytes(hex: string) returns (r: Option<seq<byte>>)
    ensures r == HexToBytes(hex)
  {
    var bytes: seq<byte> := [];
    var i := 0;
    ghost var left := hex;
    PrependNothing(HexToBytes(hex));
    while i < |hex|
      invariant 0 <= i && left == if i <= |hex| then hex[i..] else ""
      invariant HexToBytes(hex) == Prepend(bytes, HexToBytes(left))
    {
      var pair := if i + 2 <= |hex| then hex[i..i + 2] else hex[i..];
      assert left[..|pair|] == pair;
      var b := StoulByte(pair);
      if b.None? {
        return None;
      }
      PrependTwice(bytes, b.value, HexToBytes(left[|pair|..]));
      left := left[|pair|..];
      bytes := bytes + [b.value];
      i := i + 2;
    }
    assert bytes + [] == bytes;
    return Some(bytes);
  }

  function HexChar(v: nat, upper: bool): (c: char)
    requires v < 16
    ensures HexDigitValue(c) == v && !IsSpace(c)
    ensures c != '-' && c != '+' && c != '\r' && c != '\n' && c != '"' && c != ','
  {
    if v < 10 then ('0' as int + v) as char
    else if upper then ('A' as int + (v - 10)) as char
    else ('a' as int + (v - 10)) as char
  }

  /** Two hex digits a byte: upper case in the C++, lower case in Python. */
  function BytesToHex(data: seq<byte>, upper: bool): (s: string)
    ensures |s| == 2 * |data|
    ensures forall i :: 0 <= i < |s| ==> s[i] != '\r' && s[i] != '\n' && s[i] != '"' && s[i] != ','
  {
    if data == [] then ""
    else [HexChar(data[0] / 16, upper), HexChar(data[0] % 16, upper)] + BytesToHex(data[1..], upper)
  }

  /** bytes_to_hex of the Feather driver. */
  method WriteHex(data: seq<byte>) returns (s: string)
    ensures s == BytesToHex(data, true)
  {
    s := "";
    for i := 0 to |data|
      invariant s + BytesToHex(data[i..], true) == BytesToHex(data, true)
    {
      assert data[i..][1..] == data[i + 1..];
      s := s + [HexChar(data[i] / 16, true), HexChar(data[i] % 16, true)];
    }
    assert data[|data|..] == [];
  }

  lemma TwoHexDigits(hi: char, lo: char)
    requires IsHex(hi) && IsHex(lo)
    ensures HexDigits([hi, lo]) == [hi, lo]
    ensures HexValue([hi, lo]) == 16 * HexDigitValue(hi) + HexDigitValue(lo)
  {
    assert [hi, lo][1..] == [lo] && [lo][1..] == "";
    assert HexDigits([lo]) == [lo] + HexDigits("") == [lo];
    assert [hi, lo][..1] == [hi] && [hi][..0] == "";
    assert HexValue([hi]) == 16 * HexValue("") + HexDigitValue(hi);
  }

  lemma HexPair(b: byte, upper: bool)
    ensures StoulByte([HexChar(b / 16, upper), HexChar(b % 16, upper)]) == Some(b)
  {
    var hi, lo := HexChar(b / 16, upper), HexChar(b % 16, upper);
    TwoHexDigits(hi, lo);
    assert DropSpaces([hi, lo]) == [hi, lo] && Sign([hi, lo]) == (false, [hi, lo]);
  }

  /** What else a pair of characters can mean: a digit may come alone, or before a
      character that is none, or after a space or a sign; a minus negates it. */
  lemma StoulShapes(c: char, x: char)
    requires IsHex(c) && !IsHex(x)
    ensures StoulByte([c]) == Some(HexDigitValue(c)) == StoulByte([c, x])
    ensures x == ' ' || x == '+' ==> StoulByte([x, c]) == Some(HexDigitValue(c))
    ensures StoulByte(['-', c]) == Some((256 - HexDigitValue(c)) % 256)
    ensures !IsSpace(x) && x != '+' && x != '-' ==> StoulByte([x, c]).None?
  {
    assert [c][1..] == "" && [c, x][1..] == [x] && [x, c][1..] == [c] && ['-', c][1..] == [c];
    assert HexDigits("") == "" && HexDigits([x]) == "";
    assert HexDigits([c]) == [c] + "" == [c] && HexDigits([c, x]) == [c] + "" == [c];
    assert [c][..0] == "" && HexValue([c]) == 16 * HexValue("") + HexDigitValue(c);
    assert DropSpaces([c]) == [c] && Sign([c]) == (false, [c]);
  }

  /** Hex in either case reads back as the bytes written. */
  lemma {:induction false} HexRoundTrip(data: seq<byte>, upper: bool)
    ensures HexToBytes(BytesToHex(data, upper)) == Some(data)
  {
    if data == [] {
    } else {
      var s := BytesToHex(data, upper);
      HexRoundTrip(data[1..], upper);
      HexPair(data[0], upper);
      assert s[..2] == [HexChar(data[0] / 16, upper), HexChar(data[0] % 16, upper)];
      assert s[2..] == BytesToHex(data[1..], upper);
      assert [data[0]] + data[1..] == data;
    }
  }

  lemma OneHexDigit(c: char)
    requires IsHex(c)
    ensures HexToBytes([c]) == Some([HexDigitValue(c)])
  {
    StoulShapes(c, ' ');
    var none: seq<byte> := [];
    assert [c][..1] == [c] && [c][1..] == "" && HexToBytes("") == Some(none);
    var b: byte := HexDigitValue(c);
    assert HexToBytes([c]) == Some([b] + none) && [b] + none == [b];
  }

  lemma FirstPair(b: byte, upper: bool, rest: string)
    ensures HexToBytes([HexChar(b / 16, upper), HexChar(b % 16, upper)] + rest) == Prepend([b], HexToBytes(rest))
  {
    var pair := [HexChar(b / 16, upper), HexChar(b % 16, upper)];
    HexPair(b, upper);
    var s := pair + rest;
    assert s[..2] == pair && s[2..] == rest && |s| >= 2;
    assert StoulByte(s[..2]) == Some(b);
    if HexToBytes(rest).Some? {
      assert HexToBytes(s) == Some([b] + HexToBytes(rest).value);
    }
  }

  /** A single digit left over at the end is a byte of its own. */
  lemma {:induction false} HexOddTail(data: seq<byte>, upper: bool, c: char)
    requires IsHex(c)
    ensures HexToBytes(BytesToHex(data, upper) + [c]) == Some(data + [HexDigitValue(c)])
  {
    if data == [] {
      OneHexDigit(c);
      assert BytesToHex(data, upper) + [c] == [c] && data + [HexDigitValue(c)] == [HexDigitValue(c)];
    } else {
      var rest := BytesToHex(data[1..], upper) + [c];
      var pair := [HexChar(data[0] / 16, upper), HexChar(data[0] % 16, upper)];
      HexOddTail(data[1..], upper, c);
      FirstPair(data[0], upper, rest);
      assert BytesToHex(data, upper) + [c] == pair + rest;
      assert Prepend([data[0]], HexToBytes(rest)) == Some([data[0]] + (data[1..] + [HexDigitValue(c)]));
      assert [data[0]] + (data[1..] + [HexDigitValue(c)]) == data + [HexDigitValue(c)];
    }
  }
}
