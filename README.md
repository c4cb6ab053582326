# Bluetooth: hexadecimal codec, unit identifiers, HCI event framing and the loopback L2CAP socket

A Dafny model of four sequential pieces of the Swift `Bluetooth` package, with proofs of
what each promises.

- **Hexadecimal codec** (`hexadecimal.dfy`, module `Hexadecimal`). `toHexadecimal` writes
  an unsigned integer of `w` bytes as exactly `2·w` upper-case hexadecimal digits,
  left-padded with `0`. The collection version concatenates the element encodings.
  `UInt(parse:radix:)` is a case-insensitive positional parser.
  `UInt16/UInt32(hexadecimal:)` accept exactly 4 or 8 digits. `decodeHexNibble` decodes
  one digit of either case. `[UInt8](hexadecimal:)` decodes digit pairs and reads
  odd-length text as if it started with `0`. The loops of the source
  (the padding loop, the accumulator, the parse loop, the pair loop) are methods proved
  against recursive specification functions. The round trips between the encoders and
  the decoders are lemmas.
- **Unit identifiers** (`units.dfy`, module `Units`). `UnitIdentifier` is a 16-bit value
  that is equal by value. Its `description` is `0x` and four digits, then ` (name)` when
  the identifier table has an entry. The table is a map parameter.
- **HCI events** (`addresses.dfy`, `hci_events.dfy`, modules `Addresses`, `HciEvents`).
  - `HCIEventHeader` is the two-byte event header of section 5.4.4 of the Bluetooth Core
    Specification, Vol 4 Part E.
  - The tests read an event as a one-byte UART packet indicator `0x04` (Vol 4 Part A,
    section 2), then the header, then the parameters.
  - The captured buffers of the tests decode to the Command Status event (section 7.7.15)
    and to LE Advertising Report events (section 7.7.65.2). An advertising report carries
    the six address octets least significant first, the reverse of the text form
    `XX:XX:XX:XX:XX:XX`.
- **Loopback L2CAP socket** (`l2cap_socket.dfy`, module `TestL2CAP`).
  - A `Registry` object holds the pending clients: one first-in first-out queue of
    client sockets per server address.
  - `Socket` objects carry an address, a name, a security level, a peer (`target`), a
    queue of received chunks, a cache of chunks read and a log of the events fired.
  - `accept`, `send`, `receive`, `receive(_ data:)` (`Deliver`) and `connect(to:)` are
    methods that update these fields in place.
  - Pure functions on the queue map specify the registry, and lemmas prove it FIFO.
    Scenario methods state whole exchanges between fresh sockets.

`wrappers.dfy` holds `Option`, `Result` and `Outcome`. `integers.dfy` holds the byte-width
subset types and `Pow`.

## Model

| member | source | states |
|---|---|---|
| Hexadecimal.HexDigits | Sources/Bluetooth/Extensions/Hexadecimal.swift:11-18 | the rendering of a value in `n` places is exactly `n` characters, each an upper-case hexadecimal digit |
| Hexadecimal.Radix16Length | Sources/Bluetooth/Extensions/Hexadecimal.swift:13-14 | the radix-16 numeral of a value below 16^n has between 1 and n digits, so padding to n places never truncates |
| Hexadecimal.PaddedRadix16 | Sources/Bluetooth/Extensions/Hexadecimal.swift:13-17 | the rendering is the radix-16 numeral, left-padded with `'0'` to the width, then upper-cased |
| Hexadecimal.ZeroDigits | Sources/Bluetooth/Extensions/Hexadecimal.swift:13-16 | zero renders as all `'0'` |
| Hexadecimal.Uppercased | Sources/Bluetooth/Extensions/Hexadecimal.swift:17 | upper-casing keeps the length and maps every character through the ASCII upper-case map |
| Hexadecimal.ToHexadecimal | Sources/Bluetooth/Extensions/Hexadecimal.swift:11-18 | the padding loop returns the value's `2·size`-digit rendering for any value that fits in `size` bytes |
| Hexadecimal.HexOfSeq | Sources/Bluetooth/Extensions/Hexadecimal.swift:23-30 | the concatenated element renderings are `count·2·size` characters long |
| Hexadecimal.CollectionToHexadecimal | Sources/Bluetooth/Extensions/Hexadecimal.swift:23-30 | the accumulating loop returns the in-order concatenation of the element renderings, of length `count·size·2` |
| Hexadecimal.AlphabetsSpelled | Sources/Bluetooth/Extensions/Hexadecimal.swift:36 | the digit function used throughout agrees position by position with the `0-9A-Z` alphabet (and its lower-case hexadecimal prefix used for `String(value, radix: 16)`) |
| Hexadecimal.DigitValue | Sources/Bluetooth/Extensions/Hexadecimal.swift:36-44 | a character's digit value is the position of its upper-case form in `0-9A-Z`, and none when it is not there |
| Hexadecimal.ParseValue | Sources/Bluetooth/Extensions/Hexadecimal.swift:35-55 | a parsed value of `k` digits is below radix^k |
| Hexadecimal.ParseAccepts | Sources/Bluetooth/Extensions/Hexadecimal.swift:38-53 | in any radix, parsing gives nil exactly when some character is not a digit below the radix |
| Hexadecimal.ParseUppercased | Sources/Bluetooth/Extensions/Hexadecimal.swift:41-44 | parsing ignores case: the upper-cased text parses to the same result |
| Hexadecimal.LeadingZeroIgnored | Sources/Bluetooth/Extensions/Hexadecimal.swift:37-49 | a leading `'0'` leaves the parsed value unchanged, in any radix of at least 1 |
| Hexadecimal.ShortInputsFit | Sources/Bluetooth/Extensions/Hexadecimal.swift:37-49 | text with no more digits than a 64-bit value has never overflows the accumulator |
| Hexadecimal.ParseFailureExtends | Sources/Bluetooth/Extensions/Hexadecimal.swift:44-52 | a prefix that fails to parse makes the whole text fail: a bad digit anywhere gives nil |
| Hexadecimal.ParseUInt | Sources/Bluetooth/Extensions/Hexadecimal.swift:35-55 | on every input whose 64-bit accumulator does not overflow, the parse loop returns the positional value of the digits, or nil on the first character that is not a digit below the radix |
| Hexadecimal.HexDigitValue | Sources/Bluetooth/Extensions/Hexadecimal.swift:96-107 | a character is a radix-16 digit exactly when it is a hexadecimal digit of either case, and then its value is its nibble |
| Hexadecimal.ParseHexAccepts | Sources/Bluetooth/Extensions/Hexadecimal.swift:44-52 | radix-16 parsing succeeds if and only if every character is a hexadecimal digit |
| Hexadecimal.ParseHexDigits | Sources/Bluetooth/Extensions/Hexadecimal.swift:35-55 | parsing the `n`-place rendering of a value below 16^n gives the value back |
| Hexadecimal.HexDigitsOfParse | Sources/Bluetooth/Extensions/Hexadecimal.swift:35-55 | rendering a parsed value in as many places as the text had gives the text back, upper-cased |
| Hexadecimal.FixedWidthFromHex | Sources/Bluetooth/Extensions/Hexadecimal.swift:60-72 | a `size`-byte parse succeeds if and only if the text is exactly `2·size` hexadecimal digits, and the value renders back to the upper-cased text |
| Hexadecimal.FixedWidthRoundTrip | Sources/Bluetooth/Extensions/Hexadecimal.swift:60-89 | the exact-width parse of a value's rendering is the value |
| Hexadecimal.UInt16FromHex | Sources/Bluetooth/Extensions/Hexadecimal.swift:60-72 | `UInt16(hexadecimal:)` is non-nil if and only if the text is exactly 4 hexadecimal digits, and it inverts the rendering |
| Hexadecimal.UInt32FromHex | Sources/Bluetooth/Extensions/Hexadecimal.swift:77-89 | `UInt32(hexadecimal:)` is non-nil if and only if the text is exactly 8 hexadecimal digits, and it inverts the rendering |
| Hexadecimal.UInt16RoundTrip | Sources/Bluetooth/Extensions/Hexadecimal.swift:60-72 | `UInt16(hexadecimal: v.toHexadecimal()) == v` for every 16-bit value |
| Hexadecimal.UInt32RoundTrip | Sources/Bluetooth/Extensions/Hexadecimal.swift:77-89 | `UInt32(hexadecimal: v.toHexadecimal()) == v` for every 32-bit value |
| Hexadecimal.DecodeHexNibble | Sources/Bluetooth/Extensions/Hexadecimal.swift:96-107 | non-nil if and only if the character is `0-9`, `A-F` or `a-f`, and then the value is the digit's nibble, the same for both cases |
| Hexadecimal.NibbleRoundTrip | Sources/Bluetooth/Extensions/Hexadecimal.swift:96-107 | every upper-case digit decodes to its own position |
| Hexadecimal.PadToEven | Sources/Bluetooth/Extensions/Hexadecimal.swift:116-120 | the text the pair loop reads has even length |
| Hexadecimal.DecodeByte | Sources/Bluetooth/Extensions/Hexadecimal.swift:126-133 | a pair decodes if and only if both characters are hexadecimal digits, to the byte whose high nibble is the first and low nibble the second |
| Hexadecimal.ByteOfPair | Sources/Bluetooth/Extensions/Hexadecimal.swift:126-133 | the decoded byte renders back as the pair, upper-cased |
| Hexadecimal.ByteRoundTrip | Sources/Bluetooth/Extensions/Hexadecimal.swift:11-133 | a byte renders (lines 11-18) as the digits of its two nibbles, and that pair decodes back to the byte through `hi << 4 + lo` (lines 126-133) |
| Hexadecimal.DecodeFailureExtends | Sources/Bluetooth/Extensions/Hexadecimal.swift:125-131 | a pair that fails to decode makes the whole decode fail |
| Hexadecimal.BytesFromHexadecimal | Sources/Bluetooth/Extensions/Hexadecimal.swift:112-144 | the pair loop returns the pairwise decoding of the zero-padded text, nil as soon as a pair fails |
| Hexadecimal.DecodePairsAccepts | Sources/Bluetooth/Extensions/Hexadecimal.swift:124-140 | even-length text decodes if and only if it is all hexadecimal digits, to half as many bytes |
| Hexadecimal.DecodeHexBytesAccepts | Sources/Bluetooth/Extensions/Hexadecimal.swift:112-144 | `[UInt8](hexadecimal:)` is nil exactly when some character is not a hexadecimal digit, and otherwise gives ⌈n/2⌉ bytes |
| Hexadecimal.OddLengthIsZeroPadded | Sources/Bluetooth/Extensions/Hexadecimal.swift:116-120 | odd-length text decodes as the same text with a leading `0` |
| Hexadecimal.DecodeHexBytesExamples | Sources/Bluetooth/Extensions/Hexadecimal.swift:112-144 | `"A"` and `"0A"` both give `[0x0A]`, `""` gives `[]`, `"G1"` gives nil |
| Hexadecimal.DecodePairsOfHex | Sources/Bluetooth/Extensions/Hexadecimal.swift:124-140 | the pair decoding of the concatenated byte renderings is the bytes |
| Hexadecimal.DecodeEncodedBytes | Sources/Bluetooth/Extensions/Hexadecimal.swift:112-144 | `[UInt8](hexadecimal: bytes.toHexadecimal()) == bytes` for every byte array |
| Hexadecimal.HexOfDecodePairs | Sources/Bluetooth/Extensions/Hexadecimal.swift:124-140 | rendering the bytes decoded from even-length text gives the text back, upper-cased |
| Hexadecimal.EncodeDecodedBytes | Sources/Bluetooth/Extensions/Hexadecimal.swift:112-144 | for text that decodes, `bytes.toHexadecimal()` is the text upper-cased, with a leading `'0'` when the text has odd length |
| Units.FromRawValue | Sources/Bluetooth/UnitIdentifier.swift:14-16 | the identifier stores the raw value unchanged |
| Units.FromIntegerLiteral | Sources/Bluetooth/UnitIdentifier.swift:23-25 | the integer-literal initializer gives the same identifier as `init(rawValue:)` |
| Units.EqualityIsByRawValue | Sources/Bluetooth/UnitIdentifier.swift:10-12 | two identifiers are equal if and only if their raw values are |
| Units.Name | Sources/Bluetooth/UnitIdentifier.swift:52-54 | the name is present if and only if the table has the raw value, and is that entry's name |
| Units.Kind | Sources/Bluetooth/UnitIdentifier.swift:57-59 | the type namespace is present if and only if the table has the raw value, and is that entry's type |
| Units.Description | Sources/Bluetooth/UnitIdentifier.swift:32-43 | the description starts with `0x` and the four-digit rendering; without a name it is exactly 6 characters, with one it continues with ` (`, the name and `)` |
| Units.DescriptionDecodes | Sources/Bluetooth/UnitIdentifier.swift:33 | the four digits after `0x` decode back to the raw value with `UInt16(hexadecimal:)` |
| Units.DescriptionDetermines | Sources/Bluetooth/UnitIdentifier.swift:32-43 | identifiers with the same description are the same identifier, whatever the table holds |
| Addresses.FromWire | Tests/BluetoothTests/BluetoothTests.swift:57-59 | the address octets are the wire octets in reverse order |
| Addresses.FromWireSpelled | Tests/BluetoothTests/BluetoothTests.swift:57-59 | the same, octet by octet |
| Addresses.ToWire | Tests/BluetoothTests/BluetoothTests.swift:57-59 | six octets that read back as the address |
| Addresses.ToText | Tests/BluetoothTests/BluetoothTests.swift:31 | `address.rawValue` is 17 characters shaped `XX:XX:XX:XX:XX:XX`, with a `:` at every third position and a hexadecimal digit everywhere else |
| Addresses.FromText | Tests/BluetoothTests/BluetoothTests.swift:28-29 | `Address(rawValue:)` succeeds exactly on 17-character text shaped `XX:XX:XX:XX:XX:XX` with digits of either case |
| Addresses.ParseOctets | Tests/BluetoothTests/BluetoothTests.swift:28-29 | any text it accepts has `k ≥ 1` octets in `3k-1` characters, shaped `XX:...:XX` |
| Addresses.ParseOctetsAccepts | Tests/BluetoothTests/BluetoothTests.swift:28-29 | every text shaped `XX:...:XX` is accepted, with one octet per three characters |
| Addresses.OctetsText | Tests/BluetoothTests/BluetoothTests.swift:23-31 | `k` octets render as `3k-1` characters, shaped `XX:...:XX` |
| Addresses.ToTextSpelled | Tests/BluetoothTests/BluetoothTests.swift:23-31 | the text form is the six two-digit octets joined by `:` |
| Addresses.ParseOctetsText | Tests/BluetoothTests/BluetoothTests.swift:28-31 | parsing rendered octets gives the octets back |
| Addresses.OctetsTextOfParse | Tests/BluetoothTests/BluetoothTests.swift:28-31 | rendering parsed octets gives the text back, upper-cased |
| Addresses.TextRoundTrip | Tests/BluetoothTests/BluetoothTests.swift:28-31 | parsing an address's text gives the address back |
| Addresses.ParsedTextRoundTrip | Tests/BluetoothTests/BluetoothTests.swift:28-31 | rendering a parsed address gives its text back, upper-cased |
| HciEvents.HeaderFromBytes | Tests/BluetoothTests/BluetoothTests.swift:116-123 | non-nil if and only if exactly two bytes are given, and then the event code is the first and the parameter length the second |
| HciEvents.HeaderBytes | Tests/BluetoothTests/BluetoothTests.swift:125-128 | the byte value is two bytes long |
| HciEvents.DefaultHeaderBytes | Tests/BluetoothTests/BluetoothTests.swift:110-114 | `HCIEventHeader()` has both fields zero: it encodes as two zero bytes, and two zero bytes decode to it |
| HciEvents.HeaderRoundTrip | Tests/BluetoothTests/BluetoothTests.swift:116-128 | decoding a header's byte value gives the header back |
| HciEvents.HeaderBytesRoundTrip | Tests/BluetoothTests/BluetoothTests.swift:116-128 | decoding two bytes and taking the byte value gives the bytes back |
| HciEvents.FrameHeader | Tests/BluetoothTests/BluetoothTests.swift:75 | the header is the two bytes after the packet indicator |
| HciEvents.FramePayload | Tests/BluetoothTests/BluetoothTests.swift:76 | the bytes read are the indicator, the header and the payload, so the payload is `readBytes - 3` long |
| HciEvents.CommandStatusFromBytes | Tests/BluetoothTests/BluetoothTests.swift:86 | Command Status parameters decode if and only if there are four bytes: status, command packets, then the opcode, low byte first |
| HciEvents.LowEnergyMetaFromBytes | Tests/BluetoothTests/BluetoothTests.swift:42 | LE Meta parameters decode if and only if there is a byte, which is the subevent code; the rest is the subevent's data |
| HciEvents.ParseCommandStatusEvent | Tests/BluetoothTests/BluetoothTests.swift:73-90 | the header always decodes, so `parseEvent` gives nil exactly when the bytes read are not 7; otherwise status, command packets and opcode (low byte first) are bytes 3 to 6 of the buffer |
| HciEvents.ReportFromBytes | Tests/BluetoothTests/BluetoothTests.swift:48 | one report decodes exactly when its data length byte leaves room for the data and the RSSI; it takes `10 + length` bytes and its fields are event type, address type, the wire address reversed, the data and the RSSI as a signed byte |
| HciEvents.ReportsFromBytes | Tests/BluetoothTests/BluetoothTests.swift:48 | a successful decode gives exactly `count` reports, the first being the one at the front of the bytes; zero reports decode only from no bytes |
| HciEvents.AdvertisingReportsFromBytes | Tests/BluetoothTests/BluetoothTests.swift:48 | the report parameters decode only when Num_Reports is 1 to 0x19, and then to that many reports |
| HciEvents.ParseAdvertisingReportAddressesOf | Tests/BluetoothTests/BluetoothTests.swift:40-51 | a non-empty result lists as many addresses as the Num_Reports byte says (1 to 0x19), the first being the first report's wire address reversed |
| HciEvents.ParseAdvertisingReportAddresses | Tests/BluetoothTests/BluetoothTests.swift:38-52 | `parseAdvertisingReport` returns [] or as many addresses as buffer byte 4, Num_Reports, says |
| HciEvents.PaddedFraming | Tests/BluetoothTests/BluetoothTests.swift:75-76 | framing a zero-padded capture at the byte count read sees only the bytes read |
| HciEvents.OneReport | Tests/BluetoothTests/BluetoothTests.swift:38-52 | an LE Meta payload holding one advertising report decodes to that report, whose address is its wire octets reversed, and so lists exactly that address |
| HciEvents.CommandStatusCaptureDecodes | Tests/BluetoothTests/BluetoothTests.swift:92-101 | the captured Command Status event has indicator 4, event code 15, parameter length 4 equal to the payload length, and decodes to status 0x0B for opcode 0x200D |
| HciEvents.AdvertisingCapture1Decodes | Tests/BluetoothTests/BluetoothTests.swift:54-60 | the first advertising capture has event code 62, parameter length 23, subevent 2 and exactly one report, from `AC:BC:32:A6:67:42` |
| HciEvents.AdvertisingCapture2Decodes | Tests/BluetoothTests/BluetoothTests.swift:62-68 | the second advertising capture has event code 62, parameter length 35, subevent 2 and exactly one report, from `59:80:ED:81:EE:35` |
| HciEvents.AddressTextCapture | Tests/BluetoothTests/BluetoothTests.swift:21-34 | the octets `00 1A 7D DA 71 13` render as `"00:1A:7D:DA:71:13"`, and that text parses to them |
| HciEvents.Capture1AddressText | Tests/BluetoothTests/BluetoothTests.swift:59 | the first report's address renders as `"AC:BC:32:A6:67:42"` |
| HciEvents.Capture2AddressText | Tests/BluetoothTests/BluetoothTests.swift:67 | the second report's address renders as `"59:80:ED:81:EE:35"` |
| TestL2CAP.PendingOf | Tests/BluetoothTests/L2CAPSocket.swift:28 | a server with no entry has no pending clients |
| TestL2CAP.Enqueued | Tests/BluetoothTests/L2CAPSocket.swift:23-25 | the client joins the back of its server's queue, which is created when missing; every other server's queue is unchanged |
| TestL2CAP.Dequeued | Tests/BluetoothTests/L2CAPSocket.swift:27-33 | nothing is returned, and nothing changes, exactly when the queue is empty or missing; otherwise the oldest client is returned and removed, the entry stays and other queues are unchanged |
| TestL2CAP.DrainedIsPending | Tests/BluetoothTests/L2CAPSocket.swift:27-33 | successive dequeues hand out exactly the waiting clients, oldest first |
| TestL2CAP.EnqueuedAllAppends | Tests/BluetoothTests/L2CAPSocket.swift:23-25 | queuing clients one after another appends them in order and touches no other server's queue |
| TestL2CAP.QueueIsFifo | Tests/BluetoothTests/L2CAPSocket.swift:23-33 | clients are dequeued in the order they were queued, after those already waiting |
| TestL2CAP.Registry.constructor | Tests/BluetoothTests/L2CAPSocket.swift:21 | the registry starts with no pending clients |
| TestL2CAP.Registry.Queue | Tests/BluetoothTests/L2CAPSocket.swift:23-25 | the table becomes its `Enqueued` update |
| TestL2CAP.Registry.Dequeue | Tests/BluetoothTests/L2CAPSocket.swift:27-33 | returns the client and leaves the table that `Dequeued` gives, null when nobody waits |
| TestL2CAP.Socket.constructor | Tests/BluetoothTests/L2CAPSocket.swift:88-94 | a new socket has the given address and name, security level SDP, no peer, and nothing received, read or fired |
| TestL2CAP.Socket.LowEnergyClient | Tests/BluetoothTests/L2CAPSocket.swift:36-47 | a new "Client" socket with the given address, queued behind the clients already waiting for the destination |
| TestL2CAP.Socket.LowEnergyServer | Tests/BluetoothTests/L2CAPSocket.swift:49-58 | a new "Server" socket with the given address; the registry is not touched |
| TestL2CAP.Socket.GetSecurityLevel | Tests/BluetoothTests/L2CAPSocket.swift:68-70 | returns the stored security level |
| TestL2CAP.Socket.SetSecurityLevel | Tests/BluetoothTests/L2CAPSocket.swift:75-77 | the stored level becomes the given one and nothing else changes |
| TestL2CAP.Socket.Close | Tests/BluetoothTests/L2CAPSocket.swift:98-100 | closing changes nothing |
| TestL2CAP.Socket.Accept | Tests/BluetoothTests/L2CAPSocket.swift:102-112 | with no client waiting, `EAGAIN` and no change; otherwise the oldest waiting client leaves the queue and a new "Server connection" socket with the client's address is returned, the two being each other's peer and each having fired `connection`; no other waiting client is touched |
| TestL2CAP.Socket.Send | Tests/BluetoothTests/L2CAPSocket.swift:115-124 | without a peer, `ECONNRESET` and no change; otherwise the data joins the peer's received chunks unchanged as one chunk, the peer fires `read` and then the sender `didWrite(count)` |
| TestL2CAP.Socket.Receive | Tests/BluetoothTests/L2CAPSocket.swift:127-140 | the oldest chunk is returned whole, removed, appended to the cache and reported by `didRead(count)`; with nothing buffered, `ECONNRESET` when the peer is gone and a wait otherwise, with no change |
| TestL2CAP.Socket.Deliver | Tests/BluetoothTests/L2CAPSocket.swift:142-146 | the chunk joins the back of the received chunks and the socket fires `read` |
| TestL2CAP.Socket.ConnectTo | Tests/BluetoothTests/L2CAPSocket.swift:148-151 | the given socket becomes the peer and the socket fires `connection` |
| TestL2CAP.Socket.ReleasePeer | Tests/BluetoothTests/L2CAPSocket.swift:80 | the weak peer reference becomes nil when the peer is deallocated; nothing else changes |
| TestL2CAP.Exchange | Tests/BluetoothTests/L2CAPSocket.swift:102-151 | after a client connects and each side sends one message, the accepted socket carries the client's address, each side receives exactly what the other sent, and the client's events are connection, didWrite, read, didRead |
| TestL2CAP.AcceptInArrivalOrder | Tests/BluetoothTests/L2CAPSocket.swift:102-111 | two clients queued for a server are accepted in arrival order, the second untouched while it waits, and a third accept throws `EAGAIN` |
| TestL2CAP.ChunksKeepBoundaries | Tests/BluetoothTests/L2CAPSocket.swift:115-146 | two sends arrive as two chunks, read back one per receive in order, and the reader's cache holds both |
| TestL2CAP.ReadAfterPeerGone | Tests/BluetoothTests/L2CAPSocket.swift:127-139 | chunks buffered before the peer went away stay readable, after which receive and send throw `ECONNRESET` |
| TestL2CAP.ReceiveWhileConnectedWaits | Tests/BluetoothTests/L2CAPSocket.swift:131-134 | with nothing buffered and the peer still there, receive waits |
| TestL2CAP.SecurityLevelReadsBack | Tests/BluetoothTests/L2CAPSocket.swift:68-77 | the security level starts at SDP and reads back as the last value set, `close()` notwithstanding |

## Left out

- Text is a sequence of characters, each one Unicode scalar value. The source counts Swift `Character`s in some places (`string.count`) and UTF-16 code units in others (the byte decoder walks `utf16`). A `Character` made of several scalars (a letter followed by a combining mark, say) counts as one in the length guards of `UInt16/UInt32(hexadecimal:)` and in the byte decoder's odd-length test, and as several here. A scalar outside the Basic Multilingual Plane is one character here and two UTF-16 units in the source. Apart from the ligatures in the next line, such text always holds a character that is not a digit for either side, so both reject it.
- Upper-casing is the ASCII map. Swift's full Unicode upper-casing, which can turn one character into several, is not modelled. The parser keeps the first character of the upper-cased form, so the source accepts characters whose upper case begins with a digit letter, and the model rejects them. For example, the ligatures `ﬀ`, `ﬁ`, `ﬂ`, `ﬃ` and `ﬄ` read as `F`, so `UInt16(hexadecimal: "ﬀﬀﬀﬀ")` is 0xFFFF in the source and nil here (`Hexadecimal.UInt16FromHex`). The same holds with a combining mark after each ligature.
- `UInt16/UInt32(hexadecimal:)` in release builds call the standard library's `init(_:radix:)`, which is not part of this model. The model follows the hand-written `UInt(parse:radix:)` path of debug builds. The `Embedded` variant of that path, which does not upper-case, is left out too.
- Hexadecimal.ParseUInt: requires that no prefix that parses has a value of 2^64 or more (`FitsInUInt`). Otherwise the accumulator overflows `UInt` and the source traps; the trap is not modelled. Long text with leading zeros meets the requirement (`LeadingZeroIgnored`), and so does any text of at most 16 hexadecimal digits (`ShortInputsFit`). Every caller passes 4 or 8 digits.
- The pair loop's `break` when advancing by two would pass the end cannot be taken. The low nibble is read at `i + 1` before the loop advances, so `i + 2` is at most the end (Sources/Bluetooth/Extensions/Hexadecimal.swift:126-138). The `break` is not modelled.
- `toHexadecimal` is modelled on unsigned widths only. A negative signed value would render with a `-`.
- The contents of the unit identifier table are not part of this model. The table is a parameter.
- The `Address`, `LowEnergyMetaParameter`, `AdvertisingReportEventParameter`, `CommandStatusParameter` and `HCIError` sources are not part of this model. Their decoders here follow the layouts of the Core Specification sections cited above, just far enough to decode the test captures. The HCI decoders (`CommandStatusFromBytes`, `LowEnergyMetaFromBytes`, `ReportFromBytes`, `ReportsFromBytes`, `AdvertisingReportsFromBytes`) carry contracts over every input, and `OneReport` holds for every single-report payload. These contracts are about the model's own reconstruction of decoders whose source is not shown. Only the capture lemmas tie them to the tests.
  - The address text parser (`Addresses.ParseOctets`, `Addresses.FromText`) is the model's own reconstruction of `Address(rawValue:)`, which accepts either case. `TextRoundTrip` and `ParsedTextRoundTrip` are about that reconstruction, not about the library's parser.
  - The advertising report decoder reads each report as a whole record, one after the other, and rejects trailing bytes. Section 7.7.65.2 lays the reports out as one array per field (every event type, then every address type, and so on). The two layouts agree only when there is one report, as in every capture.
  - Validating that the subevent is a known `LowEnergyEvent` is not modelled.
- `print` logging in the socket is I/O and is left out.
- The socket's `event` callback is modelled as an appended log of every event the socket fires. Whether a callback is installed to observe them is not modelled, so a fresh server-side socket's log shows the `connection` its callback would not see.
- The pending-client table is a static variable in the source. Here it is a `Registry` object passed to `lowEnergyClient` and `accept`.
- TestL2CAP.Socket.Receive: when nothing is buffered and the peer is still there, the source spins until another thread sends. The model returns `Blocks` and changes nothing. Concurrency is not modelled.
- The peer is a weak reference. Deallocation is not modelled; `ReleasePeer` stands for the moment the reference becomes nil.
- `isRandom` and `backlog` are ignored by the source and by the model. Nothing in the source returns `POSIXError` codes other than `EAGAIN` and `ECONNRESET`.
- XCTest scaffolding, `allTests` and conditional compilation are not modelled.
