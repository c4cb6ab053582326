/**
 * Bluetooth device addresses: six octets held most significant first, their text form
 * `XX:XX:XX:XX:XX:XX` and their wire form, which carries the octets least significant
 * first.
 */
module Addresses {
  import opened Wrappers
  import opened Integers
  import opened Hexadecimal

  type AddressBytes = s: seq<uint8> | |s| == 6 witness [0, 0, 0, 0, 0, 0]

  /** An address; `bytes[0]` is the octet written first in the text form. */
  datatype Address = Address(bytes: AddressBytes)

  const Zero := Address([0, 0, 0, 0, 0, 0])

  function Reverse(s: seq<uint8>): (r: seq<uint8>)
    ensures |r| == |s| && forall i :: 0 <= i < |s| ==> r[i] == s[|s| - 1 - i]
  {
    if s == [] then [] else Reverse(s[1..]) + [s[0]]
  }

  /** The address whose octets arrived on the wire in `wire`, least significant first. */
  function FromWire(wire: seq<uint8>): (a: Address)
    requires |wire| == 6
    ensures forall i :: 0 <= i < 6 ==> a.bytes[i] == wire[5 - i]
  {
    Address(Reverse(wire))
  }

  /** The wire octets, least significant first, give the address octets in reverse order. */
  lemma FromWireSpelled(wire: seq<uint8>)
    requires |wire| == 6
    ensures FromWire(wire) == Address([wire[5], wire[4], wire[3], wire[2], wire[1], wire[0]])
  {
  }

  function ToWire(a: Address): (wire: seq<uint8>)
    ensures |wire| == 6 && FromWire(wire) == a
  {
    Reverse(a.bytes)
  }

  /**
   * Text shaped like `XX:XX:...:XX`: a ':' at every third position and a hexadecimal digit
   * everywhere else.
   */
  predicate ColonSeparated(s: string)
  {
    forall i :: 0 <= i < |s| ==> if i % 3 == 2 then s[i] == ':' else IsHexDigit(s[i])
  }

  /** `s` is `XX:` followed by `rest`, and `rest` has the shape, so `s` has it. */
  lemma ColonSeparatedCons(s: string, rest: string)
    requires |s| == |rest| + 3 && s[2] == ':' && IsHexDigit(s[0]) && IsHexDigit(s[1])
    requires s[3..] == rest && ColonSeparated(rest)
    ensures ColonSeparated(s)
  {
    forall i | 3 <= i < |s|
      ensures if i % 3 == 2 then s[i] == ':' else IsHexDigit(s[i])
    {
      assert s[i] == rest[i - 3] && (i - 3) % 3 == i % 3;
    }
  }

  /** Octets as two upper-case hexadecimal digits each, separated by ':'. */
  function OctetsText(octets: seq<uint8>): (s: string)
    requires |octets| >= 1
    ensures |s| == 3 * |octets| - 1 && ColonSeparated(s)
  {
    if |octets| == 1 then HexDigits(octets[0], 2)
    else
      var s := HexDigits(octets[0], 2) + ":" + OctetsText(octets[1..]);
      ColonSeparatedCons(s, OctetsText(octets[1..]));
      s
  }

  /** Colon-separated two-digit octets, either case; None for any other text. */
  function ParseOctets(s: string): (r: Option<seq<uint8>>)
    ensures r.Some? ==> |r.value| >= 1 && |s| == 3 * |r.value| - 1 && ColonSeparated(s)
    decreases |s|
  {
    if |s| < 2 then None
    else
      match FixedWidthFromHex(s[..2], 1)
      case None => None
      case Some(octet) =>
        if |s| == 2 then Some([octet])
        else if s[2] != ':' then None
        else
          match ParseOctets(s[3..])
          case None => None
          case Some(rest) =>
            ColonSeparatedCons(s, s[3..]);
            Some([octet] + rest)
  }

  /** Text of the `XX:...:XX` shape parses, to one octet per three characters. */
  lemma {:induction false} ParseOctetsAccepts(s: string)
    ensures |s| % 3 == 2 && ColonSeparated(s) ==>
      ParseOctets(s).Some? && |ParseOctets(s).value| == (|s| + 1) / 3
    decreases |s|
  {
    if |s| % 3 != 2 || !ColonSeparated(s) {
      return;
    }
    assert AllHexDigits(s[..2]) by {
      assert s[..2][0] == s[0] && s[..2][1] == s[1];
    }
    if |s| > 2 {
      var rest := s[3..];
      assert ColonSeparated(rest) by {
        forall i | 0 <= i < |rest|
          ensures if i % 3 == 2 then rest[i] == ':' else IsHexDigit(rest[i])
        {
          assert rest[i] == s[i + 3] && (i + 3) % 3 == i % 3;
        }
      }
      ParseOctetsAccepts(rest);
    }
  }

  /** The canonical text form, as `Address.rawValue` renders it: 17 characters, `XX:XX:XX:XX:XX:XX`. */
  function ToText(a: Address): (s: string)
    ensures |s| == 17 && ColonSeparated(s)
  {
    OctetsText(a.bytes)
  }

  /** `Address(rawValue:)`: six colon-separated octets; nil for text of any other shape. */
  function FromText(s: string): (r: Option<Address>)
    ensures r.Some? <==> |s| == 17 && ColonSeparated(s)
  {
    ParseOctetsAccepts(s);
    match ParseOctets(s)
    case Some(octets) => if |octets| == 6 then Some(Address(octets)) else None
    case None => None
  }

  lemma {:induction false} ParseOctetsText(octets: seq<uint8>)
    requires |octets| >= 1
    ensures ParseOctets(OctetsText(octets)) == Some(octets)
    decreases |octets|
  {
    var s := OctetsText(octets);
    assert Pow(256, 1) == 256;
    FixedWidthRoundTrip(octets[0], 1);
    assert s[..2] == HexDigits(octets[0], 2);
    if |octets| > 1 {
      assert s[2] == ':' && s[3..] == OctetsText(octets[1..]);
      ParseOctetsText(octets[1..]);
      assert [octets[0]] + octets[1..] == octets;
    } else {
      assert [octets[0]] == octets;
    }
  }

  lemma {:induction false} OctetsTextOfParse(s: string, octets: seq<uint8>)
    requires ParseOctets(s) == Some(octets)
    ensures |octets| >= 1 && OctetsText(octets) == Uppercased(s)
    decreases |s|
  {
    var first := FixedWidthFromHex(s[..2], 1).value;
    assert octets[0] == first;
    if |s| == 2 {
      assert s[..2] == s;
    } else {
      var rest := ParseOctets(s[3..]).value;
      OctetsTextOfParse(s[3..], rest);
      assert octets == [first] + rest && octets[1..] == rest;
      assert s == s[..2] + [':'] + s[3..];
      UppercasedAppend(s[..2] + [':'], s[3..]);
      UppercasedAppend(s[..2], [':']);
    }
  }

  /** The text form written out octet by octet. */
  lemma ToTextSpelled(a: Address)
    ensures ToText(a) == HexDigits(a.bytes[0], 2) + ":" + HexDigits(a.bytes[1], 2) + ":" +
                         HexDigits(a.bytes[2], 2) + ":" + HexDigits(a.bytes[3], 2) + ":" +
                         HexDigits(a.bytes[4], 2) + ":" + HexDigits(a.bytes[5], 2)
  {
    var b := a.bytes;
    assert OctetsText(b[5..]) == HexDigits(b[5], 2);
    assert OctetsText(b[4..]) == HexDigits(b[4], 2) + ":" + OctetsText(b[5..]) by { assert b[4..][1..] == b[5..]; }
    assert OctetsText(b[3..]) == HexDigits(b[3], 2) + ":" + OctetsText(b[4..]) by { assert b[3..][1..] == b[4..]; }
    assert OctetsText(b[2..]) == HexDigits(b[2], 2) + ":" + OctetsText(b[3..]) by { assert b[2..][1..] == b[3..]; }
    assert OctetsText(b[1..]) == HexDigits(b[1], 2) + ":" + OctetsText(b[2..]) by { assert b[1..][1..] == b[2..]; }
  }

  /** Rendering an address and parsing the text gives the address back. */
  lemma TextRoundTrip(a: Address)
    ensures FromText(ToText(a)) == Some(a)
  {
    ParseOctetsText(a.bytes);
  }

  /** Parsing text and rendering the address gives the text back, upper-cased. */
  lemma ParsedTextRoundTrip(s: string)
    requires FromText(s).Some?
    ensures ToText(FromText(s).value) == Uppercased(s)
  {
    OctetsTextOfParse(s, ParseOctets(s).value);
  }
}
