/**
 * Hexadecimal text for fixed-width unsigned integers and byte arrays: the encoders
 * (`toHexadecimal` on an integer and on a collection), the radix parser
 * `UInt(parse:radix:)`, the exact-width `UInt16`/`UInt32` parsers, the nibble decoder
 * and the byte-array decoder.
 *
 * Text is a sequence of characters, each one Unicode scalar value.
 */
module Hexadecimal {
  import opened Wrappers
  import opened Integers

  /**
   * The digit of value `d` in the alphabet `UInt(parse:radix:)` searches: '0'-'9' for
   * 0-9, then 'A'-'Z' for 10-35. `toHexadecimal()` writes the first sixteen.
   */
  function DigitChar(d: nat): char
    requires d < 36
  {
    if d < 10 then (48 + d) as char else (55 + d) as char
  }

  /** The digits of Swift's `String(_:radix: 16)`: '0'-'9', then 'a'-'f'. */
  function LowerDigitChar(d: nat): char
    requires d < 16
  {
    if d < 10 then (48 + d) as char else (87 + d) as char
  }

  /** The digit functions spell out the alphabets of the source. */
  lemma AlphabetsSpelled()
    ensures forall d :: 0 <= d < 36 ==> "0123456789ABCDEFGHIJKLMNOPQRSTUVWXYZ"[d] == DigitChar(d)
    ensures forall d :: 0 <= d < 16 ==> "0123456789abcdef"[d] == LowerDigitChar(d)
  {
  }

  predicate IsUpperHexDigit(c: char)
  {
    '0' <= c <= '9' || 'A' <= c <= 'F'
  }

  /** The characters the decoders accept: digits and both cases of `a`-`f`. */
  predicate IsHexDigit(c: char)
  {
    '0' <= c <= '9' || 'A' <= c <= 'F' || 'a' <= c <= 'f'
  }

  predicate AllHexDigits(s: string)
  {
    forall i :: 0 <= i < |s| ==> IsHexDigit(s[i])
  }

  /** `uppercased()` on one character, restricted to ASCII. */
  function ToUpper(c: char): char
  {
    if 'a' <= c <= 'z' then (c as int - 32) as char else c
  }

  function Uppercased(s: string): (r: string)
    ensures |r| == |s|
    ensures forall i :: 0 <= i < |s| ==> r[i] == ToUpper(s[i])
  {
    seq(|s|, i requires 0 <= i < |s| => ToUpper(s[i]))
  }

  lemma UppercasedAppend(a: string, b: string)
    ensures Uppercased(a + b) == Uppercased(a) + Uppercased(b)
  {
  }

  function Zeros(n: nat): (r: string)
    ensures |r| == n && forall i :: 0 <= i < n ==> r[i] == '0'
  {
    seq(n, _ => '0')
  }

  // ---------------------------------------------------------------------------
  // Encoding a fixed-width integer

  /**
   * Swift's `String(v, radix: 16)`: the shortest lower-case base-16 numeral of `v`,
   * "0" for zero.
   */
  function Radix16(v: nat): string
  {
    if v < 16 then [LowerDigitChar(v)] else Radix16(v / 16) + [LowerDigitChar(v % 16)]
  }

  /**
   * The `n` least significant base-16 digits of `v`, most significant first, in upper
   * case: what `toHexadecimal()` returns for an integer of `n / 2` bytes.
   */
  function HexDigits(v: nat, n: nat): (r: string)
    ensures |r| == n
    ensures forall i :: 0 <= i < n ==> IsUpperHexDigit(r[i])
  {
    if n == 0 then [] else HexDigits(v / 16, n - 1) + [DigitChar(v % 16)]
  }

  /** A numeral below `16^n` needs at most `n` digits. */
  lemma {:induction false} Radix16Length(v: nat, n: nat)
    requires 1 <= n && v < Pow(16, n)
    ensures 1 <= |Radix16(v)| <= n
  {
    if v >= 16 {
      assert Pow(16, 1) == 16;
      assert v / 16 < Pow(16, n - 1);
      Radix16Length(v / 16, n - 1);
    }
  }

  /**
   * Left-padding the shortest numeral with zeros to `n` digits and upper-casing it gives
   * exactly the `n`-digit form.
   */
  lemma {:induction false} PaddedRadix16(v: nat, n: nat)
    requires |Radix16(v)| <= n
    ensures HexDigits(v, n) == Zeros(n - |Radix16(v)|) + Uppercased(Radix16(v))
  {
    if v < 16 {
      ZeroDigits(n - 1);
      assert v / 16 == 0;
    } else {
      PaddedRadix16(v / 16, n - 1);
      UppercasedAppend(Radix16(v / 16), [LowerDigitChar(v % 16)]);
    }
  }

  /** Every digit of zero is '0'. */
  lemma {:induction false} ZeroDigits(n: nat)
    ensures HexDigits(0, n) == Zeros(n)
  {
    if n > 0 {
      ZeroDigits(n - 1);
    }
  }

  /**
   * `FixedWidthInteger.toHexadecimal()` for an unsigned integer of `size` bytes: the
   * numeral, padded on the left with '0' until it has `2 * size` characters, upper-cased.
   */
  method ToHexadecimal(v: nat, size: nat) returns (s: string)
    requires 1 <= size && v < Pow(256, size)
    ensures s == HexDigits(v, 2 * size)
  {
    BytesAreNibblePairs(size);
    Radix16Length(v, 2 * size);
    var digits := Radix16(v);
    var str := digits;
    while |str| < size * 2
      invariant |digits| <= |str| <= 2 * size
      invariant str == Zeros(|str| - |digits|) + digits
      decreases 2 * size - |str|
    {
      str := "0" + str;
    }
    PaddedUppercased(v, 2 * size, str);
    s := Uppercased(str);
  }

  /** The numeral left-padded with '0' to `n` characters, upper-cased, is the `n`-digit form. */
  lemma PaddedUppercased(v: nat, n: nat, padded: string)
    requires |Radix16(v)| <= n && padded == Zeros(n - |Radix16(v)|) + Radix16(v)
    ensures Uppercased(padded) == HexDigits(v, n)
  {
    var zeros := Zeros(n - |Radix16(v)|);
    UppercasedAppend(zeros, Radix16(v));
    assert Uppercased(zeros) == zeros;
    PaddedRadix16(v, n);
  }

  // ---------------------------------------------------------------------------
  // Encoding a collection

  /** The in-order concatenation of each element's `2 * size`-digit encoding. */
  function HexOfSeq(xs: seq<nat>, size: nat): (r: string)
    ensures |r| == |xs| * (2 * size)
  {
    if xs == [] then [] else HexOfSeq(xs[..|xs| - 1], size) + HexDigits(xs[|xs| - 1], 2 * size)
  }

  /**
   * `Collection.toHexadecimal()`: folds the element encodings into one string, whose
   * length is `count * size * 2`.
   */
  method CollectionToHexadecimal(xs: seq<nat>, size: nat) returns (s: string)
    requires 1 <= size
    requires forall i :: 0 <= i < |xs| ==> xs[i] < Pow(256, size)
    ensures s == HexOfSeq(xs, size)
    ensures |s| == |xs| * size * 2
  {
    s := "";
    for i := 0 to |xs|
      invariant s == HexOfSeq(xs[..i], size)
    {
      var element := ToHexadecimal(xs[i], size);
      assert xs[..i + 1][..i] == xs[..i];
      s := s + element;
    }
    assert xs[..|xs|] == xs;
    assert |xs| * (2 * size) == |xs| * size * 2 by { MultiplyOrder(|xs|, size); }
  }

  lemma MultiplyOrder(a: nat, b: nat)
    ensures a * (2 * b) == a * b * 2
  {
  }

  // ---------------------------------------------------------------------------
  // The radix parser

  /** The value `UInt(parse:radix:)` gives one character: the value of its upper-case form as a digit. */
  function DigitValue(c: char): (r: Option<nat>)
    ensures r.Some? ==> r.value < 36 && DigitChar(r.value) == ToUpper(c)
    ensures r.None? ==> forall d :: 0 <= d < 36 ==> DigitChar(d) != ToUpper(c)
  {
    if '0' <= c <= '9' then Some(c as int - '0' as int)
    else if 'A' <= c <= 'Z' then Some(c as int - 'A' as int + 10)
    else if 'a' <= c <= 'z' then Some(c as int - 'a' as int + 10)
    else None
  }

  /**
   * The positional value of `s` read in base `radix`, or None when some character is
   * not a digit or is a digit not below `radix`.
   */
  function ParseValue(s: string, radix: nat): (r: Option<nat>)
    ensures r.Some? ==> r.value < Pow(radix, |s|)
  {
    if s == [] then Some(0)
    else
      match ParseValue(s[..|s| - 1], radix)
      case None => None
      case Some(prefix) =>
        var d := DigitValue(s[|s| - 1]);
        if d.None? || d.value >= radix then None
        else
          DigitStep(prefix, d.value, radix, Pow(radix, |s| - 1));
          Some(prefix * radix + d.value)
  }

  /** Appending a digit below `radix` to a numeral below `bound` stays below `bound * radix`. */
  lemma DigitStep(prefix: nat, digit: nat, radix: nat, bound: nat)
    requires prefix < bound && digit < radix
    ensures prefix * radix + digit < bound * radix
  {
    calc {
      prefix * radix + digit;
    <
      prefix * radix + radix;
    ==
      (prefix + 1) * radix;
    <=  { MultiplyMonotone(prefix + 1, bound, radix); }
      bound * radix;
    }
  }

  lemma MultiplyMonotone(a: nat, b: nat, c: nat)
    requires a <= b
    ensures a * c <= b * c
  {
    assert b * c - a * c == (b - a) * c;
  }

  /** Once a prefix of `s` fails to parse, so does `s`. */
  lemma {:induction false} ParseFailureExtends(s: string, radix: nat, k: nat)
    requires k <= |s| && ParseValue(s[..k], radix).None?
    ensures ParseValue(s, radix).None?
  {
    if k < |s| {
      assert s[..|s| - 1][..k] == s[..k];
      ParseFailureExtends(s[..|s| - 1], radix, k);
    } else {
      assert s[..k] == s;
    }
  }

  /** Parsing succeeds exactly when every character is a digit below the radix. */
  lemma {:induction false} ParseAccepts(s: string, radix: nat)
    ensures ParseValue(s, radix).Some? <==>
      forall i :: 0 <= i < |s| ==> DigitValue(s[i]).Some? && DigitValue(s[i]).value < radix
  {
    if s != [] {
      var prefix := s[..|s| - 1];
      ParseAccepts(prefix, radix);
      assert forall i :: 0 <= i < |prefix| ==> prefix[i] == s[i];
    }
  }

  /** Parsing ignores case: the upper-cased text has the same value. */
  lemma {:induction false} ParseUppercased(s: string, radix: nat)
    ensures ParseValue(Uppercased(s), radix) == ParseValue(s, radix)
  {
    if s != [] {
      var u := Uppercased(s);
      assert u[..|u| - 1] == Uppercased(s[..|s| - 1]);
      ParseUppercased(s[..|s| - 1], radix);
      assert DigitValue(u[|u| - 1]) == DigitValue(s[|s| - 1]);
    }
  }

  /**
   * The source's 64-bit accumulator never overflows on `s`: every prefix that parses has
   * a value below 2^64. (Once a prefix fails, the parse stops.)
   */
  predicate FitsInUInt(s: string, radix: nat)
  {
    forall k :: 0 <= k <= |s| && ParseValue(s[..k], radix).Some? ==> ParseValue(s[..k], radix).value < UINT_LIMIT
  }

  /** Text with fewer digits than a 64-bit value has never overflows the accumulator. */
  lemma ShortInputsFit(s: string, radix: nat)
    requires Pow(radix, |s|) <= UINT_LIMIT
    ensures FitsInUInt(s, radix)
  {
    forall k | 0 <= k <= |s| && ParseValue(s[..k], radix).Some?
      ensures ParseValue(s[..k], radix).value < UINT_LIMIT
    {
      if radix > 0 {
        PowMonotone(radix, k, |s|);
      }
    }
  }

  /** A leading zero does not change the parsed value, so zero-padded text parses as unpadded text does. */
  lemma {:induction false} LeadingZeroIgnored(s: string, radix: nat)
    requires 1 <= radix
    ensures ParseValue("0" + s, radix) == ParseValue(s, radix)
  {
    if s != [] {
      var t := "0" + s;
      assert t[..|t| - 1] == "0" + s[..|s| - 1] && t[|t| - 1] == s[|s| - 1];
      LeadingZeroIgnored(s[..|s| - 1], radix);
    } else {
      assert ("0" + s)[..0] == [];
    }
  }

  /**
   * `UInt(parse:radix:)`: reads the characters left to right, accumulating
   * `result * radix + digit` in 64 bits; nil on the first character that is not a digit
   * below `radix`. The requirement is that the accumulator does not overflow, where the
   * source traps.
   */
  method ParseUInt(s: string, radix: nat) returns (r: Option<nat>)
    requires FitsInUInt(s, radix)
    ensures r == ParseValue(s, radix)
    ensures r.Some? ==> r.value < UINT_LIMIT
  {
    var result := 0;
    for i := 0 to |s|
      invariant ParseValue(s[..i], radix) == Some(result)
      invariant result < UINT_LIMIT
    {
      var val := DigitValue(s[i]);
      ghost var prefix := s[..i + 1];
      assert prefix[..i] == s[..i] && prefix[i] == s[i];
      if val.None? || val.value >= radix {
        assert ParseValue(prefix, radix).None?;
        ParseFailureExtends(s, radix, i + 1);
        return None;
      }
      assert ParseValue(prefix, radix) == Some(result * radix + val.value);
      result := result * radix + val.value;
    }
    assert s[..|s|] == s;
    return Some(result);
  }

  /** A digit below sixteen is exactly a hexadecimal character, with its nibble value. */
  lemma HexDigitValue(c: char)
    ensures (DigitValue(c).Some? && DigitValue(c).value < 16) <==> IsHexDigit(c)
    ensures IsHexDigit(c) ==> DecodeHexNibble(c) == Some(DigitValue(c).value)
  {
  }

  /** Base 16 accepts exactly the all-hexadecimal strings. */
  lemma {:induction false} ParseHexAccepts(s: string)
    ensures ParseValue(s, 16).Some? <==> AllHexDigits(s)
  {
    if s != [] {
      ParseHexAccepts(s[..|s| - 1]);
      HexDigitValue(s[|s| - 1]);
      assert AllHexDigits(s) <==> AllHexDigits(s[..|s| - 1]) && IsHexDigit(s[|s| - 1]);
    }
  }

  /** Parsing the `n`-digit form of a value below `16^n` gives the value back. */
  lemma {:induction false} ParseHexDigits(v: nat, n: nat)
    requires v < Pow(16, n)
    ensures ParseValue(HexDigits(v, n), 16) == Some(v)
  {
    if n > 0 {
      var s := HexDigits(v, n);
      assert v / 16 < Pow(16, n - 1);
      ParseHexDigits(v / 16, n - 1);
      assert s[..n - 1] == HexDigits(v / 16, n - 1);
      assert DigitValue(s[n - 1]) == Some(v % 16);
    }
  }

  /** A successful base-16 parse, re-encoded at the same length, gives the input upper-cased. */
  lemma {:induction false} HexDigitsOfParse(s: string, v: nat)
    requires ParseValue(s, 16) == Some(v)
    ensures HexDigits(v, |s|) == Uppercased(s)
  {
    if s != [] {
      var n := |s|;
      var p := ParseValue(s[..n - 1], 16).value;
      var d := DigitValue(s[n - 1]).value;
      HexDigitsOfParse(s[..n - 1], p);
      assert v == p * 16 + d && d < 16;
      assert v / 16 == p && v % 16 == d;
      assert Uppercased(s) == Uppercased(s[..n - 1]) + [ToUpper(s[n - 1])];
    }
  }

  // ---------------------------------------------------------------------------
  // Exact-width parsers

  /**
   * The hand-written path of `UInt16`/`UInt32 (hexadecimal:)` for a `size`-byte type:
   * nil unless the text has exactly `2 * size` characters, then `UInt(parse:radix: 16)`.
   */
  function FixedWidthFromHex(s: string, size: nat): (r: Option<nat>)
    ensures r.Some? <==> |s| == 2 * size && AllHexDigits(s)
    ensures r.Some? ==> r.value < Pow(256, size) && HexDigits(r.value, 2 * size) == Uppercased(s)
  {
    if |s| != 2 * size then None
    else
      ParseHexAccepts(s);
      BytesAreNibblePairs(size);
      var r := ParseValue(s, 16);
      if r.Some? then HexDigitsOfParse(s, r.value); r else r
  }

  /** Decoding the `2 * size`-digit encoding of a `size`-byte value gives the value back. */
  lemma FixedWidthRoundTrip(v: nat, size: nat)
    requires v < Pow(256, size)
    ensures FixedWidthFromHex(HexDigits(v, 2 * size), size) == Some(v)
  {
    BytesAreNibblePairs(size);
    ParseHexDigits(v, 2 * size);
  }

  /** `UInt16(hexadecimal:)`. */
  function UInt16FromHex(s: string): (r: Option<uint16>)
    ensures r.Some? <==> |s| == 4 && AllHexDigits(s)
    ensures r.Some? ==> HexDigits(r.value, 4) == Uppercased(s)
  {
    assert Pow(256, 2) == 0x1_0000;
    match FixedWidthFromHex(s, 2)
    case None => None
    case Some(v) => Some(v)
  }

  /** `UInt32(hexadecimal:)`. */
  function UInt32FromHex(s: string): (r: Option<uint32>)
    ensures r.Some? <==> |s| == 8 && AllHexDigits(s)
    ensures r.Some? ==> HexDigits(r.value, 8) == Uppercased(s)
  {
    assert Pow(256, 4) == 0x1_0000_0000;
    match FixedWidthFromHex(s, 4)
    case None => None
    case Some(v) => Some(v)
  }

  /** `UInt16(hexadecimal: v.toHexadecimal()) == v`. */
  lemma UInt16RoundTrip(v: uint16)
    ensures UInt16FromHex(HexDigits(v, 4)) == Some(v)
  {
    assert Pow(256, 2) == 0x1_0000;
    FixedWidthRoundTrip(v, 2);
  }

  /** `UInt32(hexadecimal: v.toHexadecimal()) == v`. */
  lemma UInt32RoundTrip(v: uint32)
    ensures UInt32FromHex(HexDigits(v, 8)) == Some(v)
  {
    assert Pow(256, 4) == 0x1_0000_0000;
    FixedWidthRoundTrip(v, 4);
  }

  // ---------------------------------------------------------------------------
  // Decoding bytes

  /** `decodeHexNibble()`: '0'-'9' to 0-9, 'A'-'F' and 'a'-'f' to 10-15, anything else nil. */
  function DecodeHexNibble(c: char): (r: Option<uint8>)
    ensures r.Some? <==> IsHexDigit(c)
    ensures r.Some? ==> r.value < 16 && DigitChar(r.value) == ToUpper(c)
  {
    if '0' <= c <= '9' then Some(c as int - '0' as int)
    else if 'A' <= c <= 'F' then Some(c as int - 'A' as int + 10)
    else if 'a' <= c <= 'f' then Some(c as int - 'a' as int + 10)
    else None
  }

  /** The code units the byte decoder walks: the text, with a '0' in front when its length is odd. */
  function PadToEven(s: string): (t: string)
    ensures |t| % 2 == 0
  {
    if |s| % 2 == 1 then "0" + s else s
  }

  /** Each pair of characters, high nibble first, as one byte; None if any character is not hexadecimal. */
  function DecodePairs(t: string): Option<seq<uint8>>
    requires |t| % 2 == 0
  {
    if t == [] then Some([])
    else
      match DecodePairs(t[..|t| - 2])
      case None => None
      case Some(prefix) =>
        match DecodeByte(t[|t| - 2], t[|t| - 1])
        case None => None
        case Some(b) => Some(prefix + [b])
  }

  /** One byte from its two nibble characters, high first. */
  function DecodeByte(hi: char, lo: char): (r: Option<uint8>)
    ensures r.Some? <==> IsHexDigit(hi) && IsHexDigit(lo)
    ensures r.Some? ==> r.value / 16 == DecodeHexNibble(hi).value && r.value % 16 == DecodeHexNibble(lo).value
  {
    match DecodeHexNibble(hi)
    case None => None
    case Some(h) =>
      match DecodeHexNibble(lo)
      case None => None
      case Some(l) => Some(h * 16 + l)
  }

  /** What `[UInt8](hexadecimal:)` returns. */
  function DecodeHexBytes(s: string): Option<seq<uint8>>
  {
    DecodePairs(PadToEven(s))
  }

  /** Once an even-length prefix fails to decode, so does the whole text. */
  lemma {:induction false} DecodeFailureExtends(t: string, k: nat)
    requires |t| % 2 == 0 && k % 2 == 0 && k <= |t| && DecodePairs(t[..k]).None?
    ensures DecodePairs(t).None?
    decreases |t|
  {
    if k < |t| {
      assert t[..|t| - 2][..k] == t[..k];
      DecodeFailureExtends(t[..|t| - 2], k);
    } else {
      assert t[..k] == t;
    }
  }

  /**
   * `[UInt8](hexadecimal:)`: pads odd-length text with a leading '0', then walks it two
   * code units at a time, appending `hi << 4 + lo` (the shift binds tighter than the
   * addition in Swift) and giving nil on the first non-hexadecimal unit.
   */
  method BytesFromHexadecimal(s: string) returns (r: Option<seq<uint8>>)
    ensures r == DecodeHexBytes(s)
  {
    var units := if |s| % 2 == 1 then "0" + s else s;
    var data: seq<uint8> := [];
    var i := 0;
    while i != |units|
      invariant |units| % 2 == 0 && i % 2 == 0 && 0 <= i <= |units|
      invariant DecodePairs(units[..i]) == Some(data)
      decreases |units| - i
    {
      DecodeStep(units, i, data);
      var hi := DecodeHexNibble(units[i]);
      var lo := DecodeHexNibble(units[i + 1]);
      if hi.None? || lo.None? {
        DecodeFailureExtends(units, i + 2);
        return None;
      }
      data := data + [hi.value * 16 + lo.value];
      i := i + 2;
    }
    assert units[..i] == units;
    r := Some(data);
  }

  /** Decoding one more pair extends the bytes decoded so far by that pair's byte. */
  lemma DecodeStep(units: string, i: nat, data: seq<uint8>)
    requires |units| % 2 == 0 && i % 2 == 0 && i + 2 <= |units| && DecodePairs(units[..i]) == Some(data)
    ensures DecodeByte(units[i], units[i + 1]).None? ==> DecodePairs(units[..i + 2]).None?
    ensures DecodeByte(units[i], units[i + 1]).Some? ==>
      DecodePairs(units[..i + 2]) == Some(data + [DecodeByte(units[i], units[i + 1]).value])
  {
    var prefix := units[..i + 2];
    assert prefix[..i] == units[..i] && prefix[i] == units[i] && prefix[i + 1] == units[i + 1];
  }

  /** Decoding succeeds exactly on all-hexadecimal text, with one byte per pair of characters. */
  lemma {:induction false} DecodePairsAccepts(t: string)
    requires |t| % 2 == 0
    ensures DecodePairs(t).Some? <==> AllHexDigits(t)
    ensures DecodePairs(t).Some? ==> |DecodePairs(t).value| == |t| / 2
    decreases |t|
  {
    if t != [] {
      DecodePairsAccepts(t[..|t| - 2]);
      assert AllHexDigits(t) <==>
        AllHexDigits(t[..|t| - 2]) && IsHexDigit(t[|t| - 2]) && IsHexDigit(t[|t| - 1]);
    }
  }

  /**
   * `[UInt8](hexadecimal:)` returns nil exactly when some character is not hexadecimal;
   * otherwise it returns ceil(n / 2) bytes for n characters.
   */
  lemma DecodeHexBytesAccepts(s: string)
    ensures DecodeHexBytes(s).Some? <==> AllHexDigits(s)
    ensures DecodeHexBytes(s).Some? ==> |DecodeHexBytes(s).value| == (|s| + 1) / 2
  {
    DecodePairsAccepts(PadToEven(s));
    if |s| % 2 == 1 {
      assert AllHexDigits("0" + s) <==> AllHexDigits(s) by {
        assert forall i :: 0 <= i < |s| ==> ("0" + s)[i + 1] == s[i];
      }
    }
  }

  /** Odd-length text decodes as if it had a leading '0'. */
  lemma OddLengthIsZeroPadded(s: string)
    requires |s| % 2 == 1
    ensures DecodeHexBytes(s) == DecodeHexBytes("0" + s)
  {
  }

  /** "A" and "0A" both decode to [0x0A]; the empty text decodes to []. */
  lemma DecodeHexBytesExamples()
    ensures DecodeHexBytes("A") == Some([0x0A])
    ensures DecodeHexBytes("0A") == Some([0x0A])
    ensures DecodeHexBytes("") == Some([])
    ensures DecodeHexBytes("G1").None?
  {
    assert PadToEven("A") == "0A";
    assert "0A"[..0] == [] && "0A"[0] == '0' && "0A"[1] == 'A';
    assert DecodeByte('0', 'A') == Some(0x0A);
    var none: seq<uint8> := [];
    assert DecodePairs("0A") == Some(none + [0x0A]);
    assert none + [0x0A] == [0x0A];
    assert "G1"[..0] == [];
    assert DecodeByte('G', '1').None?;
  }

  /** The two-digit form of a byte decodes back to that byte. */
  lemma ByteRoundTrip(b: uint8)
    ensures HexDigits(b, 2) == [DigitChar(b / 16), DigitChar(b % 16)]
    ensures DecodeByte(DigitChar(b / 16), DigitChar(b % 16)) == Some(b)
  {
    assert b / 16 / 16 == 0;
    NibbleRoundTrip(b / 16);
    NibbleRoundTrip(b % 16);
  }

  /** `decodeHexNibble` inverts the upper-case digit alphabet. */
  lemma NibbleRoundTrip(d: nat)
    requires d < 16
    ensures DecodeHexNibble(DigitChar(d)) == Some(d)
  {
  }

  /** A decoded byte, re-encoded, gives its two characters upper-cased. */
  lemma ByteOfPair(hi: char, lo: char, b: uint8)
    requires DecodeByte(hi, lo) == Some(b)
    ensures HexDigits(b, 2) == [ToUpper(hi), ToUpper(lo)]
  {
    ByteRoundTrip(b);
  }

  /** The byte decoder inverts the collection encoder on every byte array. */
  lemma DecodeEncodedBytes(bytes: seq<uint8>)
    ensures DecodeHexBytes(HexOfSeq(bytes, 1)) == Some(bytes)
  {
    var t := HexOfSeq(bytes, 1);
    assert |t| == 2 * |bytes|;
    assert PadToEven(t) == t;
    DecodePairsOfHex(bytes);
  }

  lemma {:induction false} DecodePairsOfHex(bytes: seq<uint8>)
    ensures DecodePairs(HexOfSeq(bytes, 1)) == Some(bytes)
  {
    if bytes != [] {
      var n := |bytes|;
      var b := bytes[n - 1];
      var t := HexOfSeq(bytes, 1);
      assert t == HexOfSeq(bytes[..n - 1], 1) + HexDigits(b, 2);
      DecodePairsOfHex(bytes[..n - 1]);
      ByteRoundTrip(b);
      assert t[..|t| - 2] == HexOfSeq(bytes[..n - 1], 1);
      assert t[|t| - 2] == DigitChar(b / 16) && t[|t| - 1] == DigitChar(b % 16);
      assert bytes[..n - 1] + [b] == bytes;
    }
  }

  /**
   * Re-encoding the bytes decoded from text gives that text upper-cased, with the
   * leading '0' that odd-length text is decoded with.
   */
  lemma EncodeDecodedBytes(s: string, bytes: seq<uint8>)
    requires DecodeHexBytes(s) == Some(bytes)
    ensures |s| % 2 == 0 ==> HexOfSeq(bytes, 1) == Uppercased(s)
    ensures |s| % 2 == 1 ==> HexOfSeq(bytes, 1) == Uppercased("0" + s)
  {
    if |s| % 2 == 1 {
      OddLengthIsZeroPadded(s);
    }
    HexOfDecodePairs(PadToEven(s), bytes);
  }

  lemma {:induction false} HexOfDecodePairs(t: string, bytes: seq<uint8>)
    requires |t| % 2 == 0 && DecodePairs(t) == Some(bytes)
    ensures HexOfSeq(bytes, 1) == Uppercased(t)
    decreases |t|
  {
    if t != [] {
      var m := |t| - 2;
      var prefix := DecodePairs(t[..m]).value;
      var b := DecodeByte(t[m], t[m + 1]).value;
      assert bytes == prefix + [b];
      HexOfDecodePairs(t[..m], prefix);
      assert bytes[..|bytes| - 1] == prefix && bytes[|bytes| - 1] == b;
      ByteOfPair(t[m], t[m + 1], b);
      calc {
        HexOfSeq(bytes, 1);
        HexOfSeq(prefix, 1) + HexDigits(b, 2);
        Uppercased(t[..m]) + [ToUpper(t[m]), ToUpper(t[m + 1])];
        Uppercased(t[..m]) + Uppercased(t[m..]);
        { UppercasedAppend(t[..m], t[m..]); assert t[..m] + t[m..] == t; }
        Uppercased(t);
      }
    }
  }
}
