/**
 * `UnitIdentifier`: a 16-bit unit-of-measure identifier, equal by value, shown as
 * `0x` and four upper-case hexadecimal digits, followed by ` (name)` when the
 * identifier table knows a name for it. The table's contents are a parameter.
 */
module Units {
  import opened Wrappers
  import opened Integers
  import opened Hexadecimal

  datatype UnitIdentifier = UnitIdentifier(rawValue: uint16)

  /** One entry of the identifier table: the unit's name and its Bluetooth type namespace. */
  datatype UnitInfo = UnitInfo(name: string, kind: string)

  /** `init(rawValue:)`: stores the value unchanged. */
  function FromRawValue(rawValue: uint16): (u: UnitIdentifier)
    ensures u.rawValue == rawValue
  {
    UnitIdentifier(rawValue)
  }

  /** `init(integerLiteral:)`: the same identifier as `init(rawValue:)`. */
  function FromIntegerLiteral(value: uint16): (u: UnitIdentifier)
    ensures u == FromRawValue(value) && u.rawValue == value
  {
    FromRawValue(value)
  }

  /** The synthesized `==`: two identifiers are equal exactly when their raw values are. */
  lemma EqualityIsByRawValue(u: UnitIdentifier, v: UnitIdentifier)
    ensures u == v <==> u.rawValue == v.rawValue
  {
  }

  /** `name`: the table's name for the raw value, nil when the table has no entry. */
  function Name(u: UnitIdentifier, table: map<uint16, UnitInfo>): (r: Option<string>)
    ensures r.Some? <==> u.rawValue in table
    ensures r.Some? ==> r.value == table[u.rawValue].name
  {
    if u.rawValue in table then Some(table[u.rawValue].name) else None
  }

  /** `type`: the table's type namespace for the raw value, nil when the table has no entry. */
  function Kind(u: UnitIdentifier, table: map<uint16, UnitInfo>): (r: Option<string>)
    ensures r.Some? <==> u.rawValue in table
    ensures r.Some? ==> r.value == table[u.rawValue].kind
  {
    if u.rawValue in table then Some(table[u.rawValue].kind) else None
  }

  /** `description`. */
  function Description(u: UnitIdentifier, table: map<uint16, UnitInfo>): (s: string)
    ensures 6 <= |s| && s[..2] == "0x" && s[2..6] == HexDigits(u.rawValue, 4)
    ensures Name(u, table).None? ==> |s| == 6
    ensures Name(u, table).Some? ==>
      var name := Name(u, table).value;
      |s| == 6 + |name| + 3 && s[6..8] == " (" && s[8..|s| - 1] == name && s[|s| - 1] == ')'
  {
    var valueString := "0x" + HexDigits(u.rawValue, 2 * 2);
    match Name(u, table)
    case Some(name) => valueString + " " + "(" + name + ")"
    case None => valueString
  }

  /** The four digits after `0x` decode back to the raw value with `UInt16(hexadecimal:)`. */
  lemma DescriptionDecodes(u: UnitIdentifier, table: map<uint16, UnitInfo>)
    ensures UInt16FromHex(Description(u, table)[2..6]) == Some(u.rawValue)
  {
    UInt16RoundTrip(u.rawValue);
  }

  /** Identifiers with the same description are the same identifier, whatever the table holds. */
  lemma DescriptionDetermines(u: UnitIdentifier, v: UnitIdentifier, table: map<uint16, UnitInfo>)
    requires Description(u, table) == Description(v, table)
    ensures u == v
  {
    DescriptionDecodes(u, table);
    DescriptionDecodes(v, table);
  }
}
