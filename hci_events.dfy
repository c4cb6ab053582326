/**
 * HCI Event packets (Bluetooth Core Specification, Vol 4 Part E, section 5.4.4): the
 * two-byte event header, the UART framing the tests read events in (a one-byte packet
 * indicator first, Vol 4 Part A section 2), and just enough of the Command Status
 * event (section 7.7.15) and of the LE Advertising Report event (section 7.7.65.2) to
 * decode the captured buffers the tests check. Reports are read as whole records back to
 * back; section 7.7.65.2 lays the fields out as one array per field, and the two agree
 * only when there is a single report, as in every capture.
 */
module HciEvents {
  import opened Wrappers
  import opened Integers
  import opened Addresses
  import opened Hexadecimal

  /** `HCIEventHeader`: event code, then parameter total length. */
  datatype EventHeader = EventHeader(event: uint8, parameterLength: uint8)

  /** `HCIEventHeader.length`. */
  const HeaderLength: nat := 2

  /** `HCIEventHeader()`: both fields zero. */
  const DefaultHeader := EventHeader(0, 0)

  /** The default header is the one two zero bytes decode to, and it encodes as them. */
  lemma DefaultHeaderBytes()
    ensures HeaderBytes(DefaultHeader) == [0, 0]
    ensures HeaderFromBytes([0, 0]) == Some(DefaultHeader)
  {
  }

  /** `HCIEventHeader(bytes:)`: nil unless exactly two bytes are given. */
  function HeaderFromBytes(bytes: seq<uint8>): (r: Option<EventHeader>)
    ensures r.Some? <==> |bytes| == HeaderLength
    ensures r.Some? ==> r.value.event == bytes[0] && r.value.parameterLength == bytes[1]
  {
    if |bytes| != HeaderLength then None else Some(EventHeader(bytes[0], bytes[1]))
  }

  /** `HCIEventHeader.byteValue`. */
  function HeaderBytes(h: EventHeader): (bytes: seq<uint8>)
    ensures |bytes| == HeaderLength
  {
    [h.event, h.parameterLength]
  }

  /** Encoding a header and decoding the bytes gives the header back. */
  lemma HeaderRoundTrip(h: EventHeader)
    ensures HeaderFromBytes(HeaderBytes(h)) == Some(h)
  {
  }

  /** Decoding two bytes and encoding the header gives the bytes back. */
  lemma HeaderBytesRoundTrip(bytes: seq<uint8>)
    requires |bytes| == HeaderLength
    ensures HeaderFromBytes(bytes).Some? && HeaderBytes(HeaderFromBytes(bytes).value) == bytes
  {
  }

  // ---------------------------------------------------------------------------
  // Framing

  /** The UART packet indicator of an HCI Event packet. */
  const EventPacketIndicator: uint8 := 0x04

  /** Event codes and the LE subevent code the tests use. */
  const CommandStatusEventCode: uint8 := 0x0F
  const LowEnergyMetaEventCode: uint8 := 0x3E
  const AdvertisingReportSubevent: uint8 := 0x02

  /** Error code 0x0B, "Connection Already Exists" (`HCIError.aclConnectionExists`). */
  const ConnectionAlreadyExists: uint8 := 0x0B

  /** The header of a framed event: the two bytes after the packet indicator. */
  function FrameHeader(buffer: seq<uint8>, readBytes: nat): (header: seq<uint8>)
    requires 1 + HeaderLength <= readBytes <= |buffer|
    ensures |header| == HeaderLength && header == buffer[1..3]
  {
    buffer[1..1 + HeaderLength]
  }

  /** The parameters of a framed event: everything read after the header. */
  function FramePayload(buffer: seq<uint8>, readBytes: nat): (payload: seq<uint8>)
    requires 1 + HeaderLength <= readBytes <= |buffer|
    ensures |payload| == readBytes - 3
    ensures buffer[..readBytes] == buffer[..1] + FrameHeader(buffer, readBytes) + payload
  {
    buffer[1 + HeaderLength..readBytes]
  }

  // ---------------------------------------------------------------------------
  // Command Status event

  /** Status, Num_HCI_Command_Packets and Command_Opcode of a Command Status event. */
  datatype CommandStatusParameter = CommandStatusParameter(status: uint8, numberOfCommands: uint8, opcode: uint16)

  /** The four-byte Command Status parameters; the opcode is little-endian. */
  function CommandStatusFromBytes(data: seq<uint8>): (r: Option<CommandStatusParameter>)
    ensures r.Some? <==> |data| == 4
    ensures r.Some? ==> r.value.status == data[0] && r.value.numberOfCommands == data[1]
    ensures r.Some? ==> r.value.opcode % 256 == data[2] && r.value.opcode / 256 == data[3]
  {
    if |data| != 4 then None
    else Some(CommandStatusParameter(data[0], data[1], data[2] as int + 256 * data[3] as int))
  }

  /**
   * `parseEvent` of `testCommandStatusEvent`: header from bytes 1-2, parameters from byte 3
   * on. The header always decodes, so the result is nil exactly when the parameters are not
   * four bytes long.
   */
  function ParseCommandStatusEvent(readBytes: nat, buffer: seq<uint8>): (r: Option<CommandStatusParameter>)
    requires 1 + HeaderLength <= readBytes <= |buffer|
    ensures r.Some? <==> readBytes == 1 + HeaderLength + 4
    ensures r.Some? ==> r.value.status == buffer[3] && r.value.numberOfCommands == buffer[4]
    ensures r.Some? ==> r.value.opcode % 256 == buffer[5] && r.value.opcode / 256 == buffer[6]
  {
    match HeaderFromBytes(FrameHeader(buffer, readBytes))
    case None => None
    case Some(_) => CommandStatusFromBytes(FramePayload(buffer, readBytes))
  }

  // ---------------------------------------------------------------------------
  // LE Meta event and LE Advertising Report

  /** An LE Meta event's parameters: the subevent code, then the subevent's parameters. */
  datatype LowEnergyMetaParameter = LowEnergyMetaParameter(subevent: uint8, data: seq<uint8>)

  function LowEnergyMetaFromBytes(data: seq<uint8>): (r: Option<LowEnergyMetaParameter>)
    ensures r.Some? <==> |data| >= 1
    ensures r.Some? ==> [r.value.subevent] + r.value.data == data
  {
    if |data| < 1 then None else Some(LowEnergyMetaParameter(data[0], data[1..]))
  }

  /** One advertising report; `rssi` is the signed reading in dBm. */
  datatype AdvertisingReport = AdvertisingReport(
    eventType: uint8, addressType: uint8, address: Address, responseData: seq<uint8>, rssi: int)

  /** A byte read as Swift's `Int8`. */
  function Int8(b: uint8): (r: int)
    ensures -128 <= r < 128 && (r - b) % 256 == 0
  {
    if b < 128 then b else b - 256
  }

  /**
   * One report: event type, address type, six address octets least significant first,
   * data length, data, RSSI. Gives the report and the number of bytes it took.
   */
  function ReportFromBytes(bytes: seq<uint8>): (r: Option<(AdvertisingReport, nat)>)
    ensures r.Some? <==> 10 <= |bytes| && 10 + bytes[8] as int <= |bytes|
    ensures r.Some? ==> r.value.1 == 10 + bytes[8] as int && r.value.1 <= |bytes|
    ensures r.Some? ==>
      var report := r.value.0;
      && report.eventType == bytes[0] && report.addressType == bytes[1]
      && report.address == FromWire(bytes[2..8])
      && report.responseData == bytes[9..r.value.1 - 1]
      && report.rssi == Int8(bytes[r.value.1 - 1])
  {
    if |bytes| < 10 || |bytes| < 10 + bytes[8] as int then None
    else
      var length := bytes[8] as int;
      Some((AdvertisingReport(bytes[0], bytes[1], FromWire(bytes[2..8]), bytes[9..9 + length], Int8(bytes[9 + length])),
            10 + length))
  }

  /** `count` reports back to back, consuming the bytes exactly. */
  function ReportsFromBytes(count: nat, bytes: seq<uint8>): (r: Option<seq<AdvertisingReport>>)
    ensures r.Some? ==> |r.value| == count
    ensures r.Some? && count > 0 ==>
      ReportFromBytes(bytes).Some? && r.value[0] == ReportFromBytes(bytes).value.0
    ensures count == 0 ==> (r.Some? <==> bytes == [])
    decreases count
  {
    if count == 0 then (if bytes == [] then Some([]) else None)
    else
      match ReportFromBytes(bytes)
      case None => None
      case Some((report, used)) =>
        match ReportsFromBytes(count - 1, bytes[used..])
        case None => None
        case Some(rest) => Some([report] + rest)
  }

  /** The LE Advertising Report subevent's parameters: Num_Reports (1 to 0x19), then the reports. */
  function AdvertisingReportsFromBytes(data: seq<uint8>): (r: Option<seq<AdvertisingReport>>)
    ensures r.Some? ==> 1 <= |data| && 1 <= data[0] <= 0x19 && |r.value| == data[0] as int
  {
    if |data| < 1 || data[0] < 1 || data[0] > 0x19 then None
    else ReportsFromBytes(data[0], data[1..])
  }

  /**
   * `parseAdvertisingReport` of `testParseAdvertisingReportData`: the reported addresses,
   * [] on failure. Any addresses are as many as the Num_Reports byte says, which follows
   * the indicator, the header and the subevent code.
   */
  function ParseAdvertisingReportAddresses(readBytes: nat, buffer: seq<uint8>): (r: seq<Address>)
    requires 1 + HeaderLength <= readBytes <= |buffer|
    ensures r != [] ==> 5 <= readBytes && |r| == buffer[4] as int && |r| <= 0x19
  {
    ParseAdvertisingReportAddressesOf(FramePayload(buffer, readBytes))
  }

  /** The addresses of the reports in an LE Meta payload, in order; [] when it does not decode. */
  function ParseAdvertisingReportAddressesOf(eventData: seq<uint8>): (r: seq<Address>)
    ensures r != [] ==> 2 <= |eventData| && 1 <= |r| == eventData[1] as int <= 0x19
    ensures r != [] ==> 10 <= |eventData| - 2 && r[0] == FromWire(eventData[4..10])
  {
    match LowEnergyMetaFromBytes(eventData)
    case None => []
    case Some(meta) =>
      match AdvertisingReportsFromBytes(meta.data)
      case None => []
      case Some(reports) => seq(|reports|, i requires 0 <= i < |reports| => reports[i].address)
  }

  // ---------------------------------------------------------------------------
  // The captured buffers of the tests: the bytes read, then zeros up to 260 bytes

  function Padded(read: seq<uint8>): seq<uint8>
    requires |read| <= 260
  {
    read + seq(260 - |read|, _ => 0)
  }

  /** The bytes `read` returned for each capture, split at the fields of the event. */
  const CommandStatusRead: seq<uint8> := [4, 15, 4, 11, 1, 13, 32]

  const Report1Wire: seq<uint8> := [66, 103, 166, 50, 188, 172]
  const Report1Data: seq<uint8> := [2, 1, 6, 7, 255, 76, 0, 16, 2, 11, 0]
  const AdvertisingRead1: seq<uint8> := [4, 62, 23] + [2, 1, 0, 0] + Report1Wire + [11] + Report1Data + [186]

  const Report2Wire: seq<uint8> := [53, 238, 129, 237, 128, 89]
  const Report2Data: seq<uint8> :=
    [2, 1, 6, 19, 255, 76, 0, 12, 14, 8, 69, 6, 92, 128, 96, 83, 24, 163, 199, 32, 154, 91, 3]
  const AdvertisingRead2: seq<uint8> := [4, 62, 35] + [2, 1, 0, 1] + Report2Wire + [23] + Report2Data + [191]

  const CommandStatusCapture: seq<uint8> := Padded(CommandStatusRead)

  const AdvertisingCapture1: seq<uint8> := Padded(AdvertisingRead1)

  const AdvertisingCapture2: seq<uint8> := Padded(AdvertisingRead2)

  /** Framing a padded capture at the number of bytes read sees only the bytes read. */
  lemma PaddedFraming(read: seq<uint8>)
    requires 1 + HeaderLength <= |read| <= 260
    ensures Padded(read)[0] == read[0]
    ensures FrameHeader(Padded(read), |read|) == read[1..3]
    ensures FramePayload(Padded(read), |read|) == read[3..]
  {
    assert Padded(read)[..|read|] == read;
  }

  /**
   * The Command Status capture: an event packet whose header reads event 0x0F with four
   * parameter bytes, exactly the bytes that follow, which decode to status 0x0B for
   * opcode 0x200D (LE Create Connection) with one command packet allowed.
   */
  lemma CommandStatusCaptureDecodes()
    ensures CommandStatusCapture[0] == EventPacketIndicator
    ensures HeaderFromBytes(FrameHeader(CommandStatusCapture, 7)) == Some(EventHeader(CommandStatusEventCode, 4))
    ensures |FramePayload(CommandStatusCapture, 7)| == 4
    ensures ParseCommandStatusEvent(7, CommandStatusCapture) == Some(CommandStatusParameter(ConnectionAlreadyExists, 1, 0x200D))
  {
    PaddedFraming(CommandStatusRead);
    assert CommandStatusRead[1..3] == [15, 4];
    assert CommandStatusRead[3..] == [11, 1, 13, 32];
  }

  /** The first advertising capture holds one report, from AC:BC:32:A6:67:42. */
  lemma AdvertisingCapture1Decodes()
    ensures AdvertisingCapture1[0] == EventPacketIndicator
    ensures HeaderFromBytes(FrameHeader(AdvertisingCapture1, 26)) == Some(EventHeader(LowEnergyMetaEventCode, 23))
    ensures LowEnergyMetaFromBytes(FramePayload(AdvertisingCapture1, 26)).value.subevent == AdvertisingReportSubevent
    ensures var addresses := ParseAdvertisingReportAddresses(26, AdvertisingCapture1);
      |addresses| == 1 && ToText(addresses[0]) == "AC:BC:32:A6:67:42"
  {
    var payload := [2, 1, 0, 0] + Report1Wire + [11] + Report1Data + [186];
    assert AdvertisingRead1 == [4, 62, 23] + payload;
    PaddedFraming(AdvertisingRead1);
    assert AdvertisingRead1[1..3] == [62, 23];
    OneReport(0, 0, Report1Wire, Report1Data, 186);
    FromWireSpelled(Report1Wire);
    Capture1AddressText(FromWire(Report1Wire));
  }

  /** The second advertising capture holds one report, from 59:80:ED:81:EE:35. */
  lemma AdvertisingCapture2Decodes()
    ensures AdvertisingCapture2[0] == EventPacketIndicator
    ensures HeaderFromBytes(FrameHeader(AdvertisingCapture2, 38)) == Some(EventHeader(LowEnergyMetaEventCode, 35))
    ensures LowEnergyMetaFromBytes(FramePayload(AdvertisingCapture2, 38)).value.subevent == AdvertisingReportSubevent
    ensures var addresses := ParseAdvertisingReportAddresses(38, AdvertisingCapture2);
      |addresses| == 1 && ToText(addresses[0]) == "59:80:ED:81:EE:35"
  {
    var payload := [2, 1, 0, 1] + Report2Wire + [23] + Report2Data + [191];
    assert AdvertisingRead2 == [4, 62, 35] + payload;
    PaddedFraming(AdvertisingRead2);
    assert AdvertisingRead2[1..3] == [62, 35];
    OneReport(0, 1, Report2Wire, Report2Data, 191);
    FromWireSpelled(Report2Wire);
    Capture2AddressText(FromWire(Report2Wire));
  }

  /**
   * `testAddress`: "00:1A:7D:DA:71:13" is the text of the octets in the order written
   * (so, by `TextRoundTrip`, it parses to them and renders back unchanged).
   */
  lemma AddressTextCapture(address: Address)
    requires address == Address([0x00, 0x1A, 0x7D, 0xDA, 0x71, 0x13])
    ensures ToText(address) == "00:1A:7D:DA:71:13"
    ensures FromText("00:1A:7D:DA:71:13") == Some(address)
  {
    assert ToText(address) == "00:1A:7D:DA:71:13" by {
      ToTextSpelled(address);
      AddressCaptureOctets();
    }
    TextRoundTrip(address);
  }

  /**
   * An LE Meta payload holding one advertising report, with nothing after it, decodes to
   * that report and so lists exactly its address.
   */
  lemma OneReport(eventType: uint8, addressType: uint8, wire: seq<uint8>, data: seq<uint8>, rssi: uint8)
    requires |wire| == 6 && |data| < 256
    ensures var payload := [AdvertisingReportSubevent, 1, eventType, addressType] + wire + [|data| as uint8] + data + [rssi];
      && LowEnergyMetaFromBytes(payload).value.subevent == AdvertisingReportSubevent
      && AdvertisingReportsFromBytes(LowEnergyMetaFromBytes(payload).value.data)
         == Some([AdvertisingReport(eventType, addressType, FromWire(wire), data, Int8(rssi))])
      && ParseAdvertisingReportAddressesOf(payload) == [FromWire(wire)]
  {
    var payload := [AdvertisingReportSubevent, 1, eventType, addressType] + wire + [|data| as uint8] + data + [rssi];
    var reports := payload[2..];
    assert reports == [eventType, addressType] + wire + [|data| as uint8] + data + [rssi];
    assert reports[2..8] == wire && reports[8] as int == |data| && reports[9..9 + |data|] == data;
    assert reports[9 + |data|] == rssi;
    var report := AdvertisingReport(eventType, addressType, FromWire(wire), data, Int8(rssi));
    assert ReportFromBytes(reports) == Some((report, |reports|));
    assert reports[|reports|..] == [];
    assert ReportsFromBytes(1, reports) == Some([report] + []);
    assert [report] + [] == [report];
    assert payload[1..][1..] == reports && payload[1..][0] == 1;
    assert LowEnergyMetaFromBytes(payload).value.data == payload[1..];
    assert AdvertisingReportsFromBytes(payload[1..]) == Some([report]);
  }

  lemma Capture1AddressText(address: Address)
    requires address == Address([0xAC, 0xBC, 0x32, 0xA6, 0x67, 0x42])
    ensures ToText(address) == "AC:BC:32:A6:67:42"
  {
    ToTextSpelled(address);
    Capture1Octets();
  }

  lemma Capture1Octets()
    ensures HexDigits(0xAC, 2) == "AC" && HexDigits(0xBC, 2) == "BC" && HexDigits(0x32, 2) == "32"
    ensures HexDigits(0xA6, 2) == "A6" && HexDigits(0x67, 2) == "67" && HexDigits(0x42, 2) == "42"
  {
    ByteRoundTrip(0xAC);
    ByteRoundTrip(0xBC);
    ByteRoundTrip(0x32);
    ByteRoundTrip(0xA6);
    ByteRoundTrip(0x67);
    ByteRoundTrip(0x42);
  }

  lemma Capture2AddressText(address: Address)
    requires address == Address([0x59, 0x80, 0xED, 0x81, 0xEE, 0x35])
    ensures ToText(address) == "59:80:ED:81:EE:35"
  {
    ToTextSpelled(address);
    Capture2Octets();
  }

  lemma Capture2Octets()
    ensures HexDigits(0x59, 2) == "59" && HexDigits(0x80, 2) == "80" && HexDigits(0xED, 2) == "ED"
    ensures HexDigits(0x81, 2) == "81" && HexDigits(0xEE, 2) == "EE" && HexDigits(0x35, 2) == "35"
  {
    ByteRoundTrip(0x59);
    ByteRoundTrip(0x80);
    ByteRoundTrip(0xED);
    ByteRoundTrip(0x81);
    ByteRoundTrip(0xEE);
    ByteRoundTrip(0x35);
  }

  lemma AddressCaptureOctets()
    ensures HexDigits(0x00, 2) == "00" && HexDigits(0x1A, 2) == "1A" && HexDigits(0x7D, 2) == "7D"
    ensures HexDigits(0xDA, 2) == "DA" && HexDigits(0x71, 2) == "71" && HexDigits(0x13, 2) == "13"
  {
    ByteRoundTrip(0x00);
    ByteRoundTrip(0x1A);
    ByteRoundTrip(0x7D);
    ByteRoundTrip(0xDA);
    ByteRoundTrip(0x71);
    ByteRoundTrip(0x13);
  }
}
