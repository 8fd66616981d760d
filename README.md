# WatchGuard access-point discovery: a Dafny model

This project models the core of `wg-ap-probe`, a small Java tool that finds
WatchGuard wireless access points on a LAN. It broadcasts an 8-byte UDP probe
("WGWC" + "DISC", big-endian) to port 2528. It then decodes each reply that
arrives on port 2529: a 16-byte header ("WGAP", "IP4@", a 32-bit address word,
a 16-bit port, two reserved bytes) followed by newline-separated
system-information text. The text fills an access-point descriptor (`APInfo`)
by line position.

Modules, one per concern:

- `Probe` (`probe.dfy`) covers `Probe.java`. It has the protocol constants and
  the probe encoding, which fills a `ByteBuffer` with two `putInt` calls. It
  also has `DecodeHeader`, the header checks and reads of `parseInfo`, as a pure
  function over a byte sequence. `ParseInfo` is the method that allocates the
  descriptor.
- `AccessPoint` (`access_point.dfy`) covers `APInfo.java`. It has the `APInfo`
  class and its constructor, where the switch falls through from the highest
  line present down to the name. It has the address conversion through
  `BigInteger.toByteArray` and `InetAddress.getByAddress`, the field table that
  specifies the switch, `getAddress`, `getUptime` and `toString`.
- `Uptime` (`uptime.dfy`) splits a count of seconds into days, hours, minutes
  and seconds, step by step as `getUptime` does, and renders the result.
- `Text` (`text.dfy`) has Java's `String.split("\\n")`: no newline gives the
  whole text as the one line, trailing empty lines are dropped, leading and
  interior empty lines are kept. It also has decimal rendering and parsing.
- `Bytes` (`bytes.dfy`) has the big-endian signed and unsigned values behind
  `getInt`, `getShort` and `putInt`, the minimal two's-complement encoding
  behind `BigInteger.toByteArray`, and a write buffer with a cursor.
- `Arith` and `Wrappers` hold division facts and the `Option` type.

Bytes are modelled by their unsigned value 0..255. Java's `int` and `short`
are the subset types `Int32` and `Int16`. A Java `null` field is `None`.

Behaviours of the code that the model keeps:

- `"".split("\\n")` gives one empty line, not zero. Zero lines happen only for
  non-empty text made of newlines alone (`Text.SplitLinesNone`).
- The address is kept only when the minimal two's-complement encoding of the
  header word is exactly four bytes. Read unsigned, that is the range
  0x00800000..0xFF7FFFFF. Otherwise the address stays unset, and the rest of
  the descriptor is still built. For example, 0.1.2.3 becomes unset
  (`AccessPoint.AddressOfShortWord`).
- The port is the signed 16-bit value as read, so ports above 32767 are
  negative.
- The switch fills `revision` from line 8 only when there are at least nine
  lines. Lines 6, 7 and 9 onwards are never read.

## Model

| member | source | states |
|---|---|---|
| `Probe.EncodeProbe` | src/main/java/org/darkforest/wgwifi/Probe.java:116-119 | the probe is exactly 8 bytes; getInt at 0 is 0x57475743 and at 4 is 0x44495343; the bytes are "WGWCDISC" |
| `Bytes.ByteBuffer.Allocate` | src/main/java/org/darkforest/wgwifi/Probe.java:116 | a fresh zero-filled buffer of the given capacity with its cursor at 0 |
| `Bytes.ByteBuffer.PutInt` | src/main/java/org/darkforest/wgwifi/Probe.java:117-118 | writes the four big-endian bytes of the word at the cursor, advances the cursor by 4, and leaves every other byte unchanged |
| `Probe.DecodeHeader` | src/main/java/org/darkforest/wgwifi/Probe.java:78-100 | the header checks and reads of parseInfo; an accepted result always has 16 < length <= buffer size and a payload of length - 16 bytes; specified in full by DecodeAcceptsExactly, DecodeEncodeResponse and EncodeDecodedResponse below |
| `Probe.DecodeRejectsBadLength` | src/main/java/org/darkforest/wgwifi/Probe.java:78-80 | a length of 16 or less, or one beyond the buffer, gives no result |
| `Probe.DecodeRejectsWrongType` | src/main/java/org/darkforest/wgwifi/Probe.java:86-88 | a type word other than 0x57474150 gives no result |
| `Probe.DecodeRejectsWrongCode` | src/main/java/org/darkforest/wgwifi/Probe.java:90-92 | a code word other than 0x49503440 gives no result, even when the type word is right |
| `Probe.DecodeAcceptsExactly` | src/main/java/org/darkforest/wgwifi/Probe.java:78-100 | a result exists if and only if 16 < length <= buffer size and the buffer starts with the bytes "WGAPIP4@" |
| `Probe.DecodeEncodeResponse` | src/main/java/org/darkforest/wgwifi/Probe.java:94-100 | decoding a response laid out as type, code, address word, port, any two reserved bytes and a non-empty text returns exactly that address, port and text |
| `Probe.EncodeDecodedResponse` | src/main/java/org/darkforest/wgwifi/Probe.java:82-100 | an accepted buffer, up to its length, is its decoded header re-encoded with the reserved bytes it carried, so the address is the signed word at 8-11, the port the signed short at 12-13 and the text bytes [16, length) |
| `Probe.DecodeIgnoresReserved` | src/main/java/org/darkforest/wgwifi/Probe.java:94-96 | bytes 14 and 15 never change the result |
| `Probe.DecodeIgnoresTail` | src/main/java/org/darkforest/wgwifi/Probe.java:98-100 | bytes at index length or beyond never change the result |
| `Probe.ParseInfo` | src/main/java/org/darkforest/wgwifi/Probe.java:76-101 | returns null exactly when the header is refused; otherwise a new descriptor built from the decoded address word, port and decoded text |
| `Bytes.ReadInt32` | src/main/java/org/darkforest/wgwifi/Probe.java:86-94 | getInt: the signed big-endian word at an offset; specified by ReadInt32Bytes, Int32BytesRead and ReadInt32Matches below |
| `Bytes.ReadInt16` | src/main/java/org/darkforest/wgwifi/Probe.java:95 | getShort: the signed big-endian short at an offset; specified by ReadInt16Bytes, Int16BytesRead and ReadInt16Matches below |
| `Bytes.Int32Bytes` | src/main/java/org/darkforest/wgwifi/Probe.java:117-118 | the four bytes putInt writes; ReadInt32Bytes and Int32BytesRead make it the exact inverse of getInt |
| `Bytes.ReadInt32Bytes` | src/main/java/org/darkforest/wgwifi/Probe.java:117-118 | getInt reads back the word putInt wrote |
| `Bytes.Int32BytesRead` | src/main/java/org/darkforest/wgwifi/Probe.java:86-94 | the bytes of the word getInt read are the four bytes it read |
| `Bytes.ReadInt32Matches` | src/main/java/org/darkforest/wgwifi/Probe.java:86-92 | a word read with getInt equals a constant if and only if its four bytes are that constant's big-endian bytes |
| `Bytes.ReadInt16Bytes` | src/main/java/org/darkforest/wgwifi/Probe.java:95 | getShort reads back the two big-endian bytes of a short |
| `Bytes.Int16BytesRead` | src/main/java/org/darkforest/wgwifi/Probe.java:95 | the bytes of the short getShort read are the two bytes it read |
| `Bytes.ReadInt16Matches` | src/main/java/org/darkforest/wgwifi/Probe.java:95 | a short read with getShort equals a value if and only if its two bytes are that value's big-endian bytes |
| `Bytes.MinimalBytes` | src/main/java/org/darkforest/wgwifi/APInfo.java:47 | BigInteger.toByteArray: always at least one byte; pinned down by MinimalBytesValue, MinimalBytesLength and MinimalBytesIsShortest below |
| `Bytes.MinimalBytesValue` | src/main/java/org/darkforest/wgwifi/APInfo.java:47 | the toByteArray encoding of the word reads back, as two's complement, as the word |
| `Bytes.MinimalBytesLength` | src/main/java/org/darkforest/wgwifi/APInfo.java:47 | the encoding fits in n bytes if and only if the value lies in the signed n-byte range |
| `Bytes.MinimalBytesIsShortest` | src/main/java/org/darkforest/wgwifi/APInfo.java:47 | no shorter byte string encodes the same value |
| `Bytes.MinimalBytesFixed` | src/main/java/org/darkforest/wgwifi/APInfo.java:47-49 | a minimal encoding as wide as the fixed-width one is the fixed-width one |
| `AccessPoint.GetByAddress` | src/main/java/org/darkforest/wgwifi/APInfo.java:49-52 | InetAddress.getByAddress on an IPv4-sized array: four bytes give those octets, any other length gives no address; used by AddressOf, whose cases AddressOfCases states |
| `AccessPoint.AddressOf` | src/main/java/org/darkforest/wgwifi/APInfo.java:47-52 | the address the constructor derives from the header word; AddressOfCases below states exactly when it is set and what it is |
| `AccessPoint.AddressOfCases` | src/main/java/org/darkforest/wgwifi/APInfo.java:47-52 | the address is set if and only if the word read unsigned lies in 0x00800000..0xFF7FFFFF, and then its octets are the word's four big-endian bytes |
| `AccessPoint.AddressOfShortWord` | src/main/java/org/darkforest/wgwifi/APInfo.java:47-52 | 0.1.2.3 is dropped, since its encoding has three bytes; 10.0.0.1 is kept as [10, 0, 0, 1] |
| `AccessPoint.AddressExample` | src/main/java/org/darkforest/wgwifi/APInfo.java:47-52 | the negative word of 192.168.1.50 gives the octets 192, 168, 1, 50 |
| `AccessPoint.APInfo.constructor` | src/main/java/org/darkforest/wgwifi/APInfo.java:46-83 | for every word, port and text, without failing: address is the converted word or unset, port is unchanged, and the text fields are the field table applied to the split lines |
| `AccessPoint.LayoutFields` | src/main/java/org/darkforest/wgwifi/APInfo.java:56-82 | the field each line position fills; the constructor's fall-through switch is proved equal to it, and LayoutFieldsByCount, LayoutFieldsNoLines, LayoutIgnoresOtherLines and LayoutIgnoresExtraLines below state its behaviour |
| `AccessPoint.LayoutFieldsByCount` | src/main/java/org/darkforest/wgwifi/APInfo.java:56-82 | with k lines, name is set iff k >= 1, model iff k >= 2, mac iff k >= 3, serial iff k >= 4, version iff k >= 5, uptime iff k >= 6, revision iff k >= 9; each set field is the line at 0, 1, 2, 3, 4, 5 or 8 |
| `AccessPoint.LayoutFieldsNoLines` | src/main/java/org/darkforest/wgwifi/APInfo.java:56-58 | zero lines leave every text field unset |
| `AccessPoint.LayoutIgnoresOtherLines` | src/main/java/org/darkforest/wgwifi/APInfo.java:60-66 | two line lists of one length that agree on lines 0-5 and 8 give the same fields, so lines 6, 7 and 9 onwards never matter |
| `AccessPoint.LayoutIgnoresExtraLines` | src/main/java/org/darkforest/wgwifi/APInfo.java:60-61 | lines beyond the ninth can be cut off without changing any field |
| `AccessPoint.SixFieldExample` | src/main/java/org/darkforest/wgwifi/APInfo.java:55-82 | six newline-ended fields fill name through uptime and leave revision unset |
| `Text.SplitLines` | src/main/java/org/darkforest/wgwifi/APInfo.java:55 | String.split on a newline; specified by SplitLinesShape, SplitLinesEmptyText, SplitLinesNone and SplitLinesJoin below |
| `Text.SplitLinesShape` | src/main/java/org/darkforest/wgwifi/APInfo.java:55 | the lines are a prefix of the newline-separated pieces; only empty pieces are lost; the last line of a split on a newline is non-empty; no line holds a newline |
| `Text.SplitLinesEmptyText` | src/main/java/org/darkforest/wgwifi/APInfo.java:55 | the empty text splits into one empty line |
| `Text.SplitLinesTrailingNewline` | src/main/java/org/darkforest/wgwifi/APInfo.java:55 | a trailing newline adds no line to a non-empty text |
| `Text.SplitLinesNone` | src/main/java/org/darkforest/wgwifi/APInfo.java:55 | there are zero lines if and only if the text is non-empty and made only of newlines |
| `Text.SplitLinesLeadingNewline` | src/main/java/org/darkforest/wgwifi/APInfo.java:55 | a leading newline adds a leading empty line when any other character follows |
| `Text.SplitLinesJoin` | src/main/java/org/darkforest/wgwifi/APInfo.java:55 | the lines joined with newlines are the text up to a tail of newlines only |
| `Text.JoinSegments` | src/main/java/org/darkforest/wgwifi/APInfo.java:55 | cutting at every separator and gluing back gives the text |
| `Text.SegmentsJoin` | src/main/java/org/darkforest/wgwifi/APInfo.java:55 | gluing separator-free pieces and cutting gives the pieces back |
| `Text.DecimalString` | src/main/java/org/darkforest/wgwifi/APInfo.java:128 | the decimal rendering of a count: a non-empty string of digits; ParseDecimalString and DecimalStringCanonical below make it the canonical inverse of decimal parsing |
| `Text.ParseDecimalString` | src/main/java/org/darkforest/wgwifi/APInfo.java:128 | the decimal rendering of a count parses back to the count |
| `Text.DecimalStringCanonical` | src/main/java/org/darkforest/wgwifi/APInfo.java:128 | the rendering has no leading zero |
| `AccessPoint.DottedQuad` | src/main/java/org/darkforest/wgwifi/APInfo.java:85-87 | getHostAddress text of four octets; ParseDottedQuadRoundTrip below shows it loses nothing |
| `AccessPoint.ParseDottedQuadRoundTrip` | src/main/java/org/darkforest/wgwifi/APInfo.java:85-87 | the dotted-decimal text of four octets reads back as those octets |
| `AccessPoint.APInfo.HostAddress` | src/main/java/org/darkforest/wgwifi/APInfo.java:85-87 | getAddress on a set address returns text that reads back as the address |
| `Uptime.Decompose` | src/main/java/org/darkforest/wgwifi/APInfo.java:117-126 | days*86400 + hours*3600 + minutes*60 + seconds is the input, with hours < 24, minutes < 60 and seconds < 60 |
| `Uptime.SplitUnique` | src/main/java/org/darkforest/wgwifi/APInfo.java:117-126 | a count of seconds has only one such split |
| `Uptime.SplitSeconds` | src/main/java/org/darkforest/wgwifi/APInfo.java:115-126 | taking off whole days, then hours, then minutes gives a split that adds up to the input within those bounds |
| `Uptime.UptimeText` | src/main/java/org/darkforest/wgwifi/APInfo.java:128 | the "<d>d, <h>:<m>+<s>s" rendering of a split; UptimeTextInjective below shows it is one-to-one |
| `Uptime.FormatUptime` | src/main/java/org/darkforest/wgwifi/APInfo.java:114-128 | the text getUptime returns for a count of seconds; FormatUptimeInjective and FormatUptimeExamples below state it |
| `Uptime.UptimeTextInjective` | src/main/java/org/darkforest/wgwifi/APInfo.java:128 | different splits render as different "<d>d, <h>:<m>+<s>s" texts |
| `Uptime.FormatUptimeInjective` | src/main/java/org/darkforest/wgwifi/APInfo.java:114-128 | different uptimes render differently |
| `Uptime.FormatUptimeExamples` | src/main/java/org/darkforest/wgwifi/APInfo.java:114-128 | 90061 renders as "1d, 1:1+1s", 0 as "0d, 0:0+0s" and 90000 as "1d, 1:0+0s" |
| `AccessPoint.APInfo.GetUptime` | src/main/java/org/darkforest/wgwifi/APInfo.java:114-129 | the text is "<d>d, <h>:<m>+<s>s" for the unique split of the uptime seconds |
| `AccessPoint.APInfo.ToString` | src/main/java/org/darkforest/wgwifi/APInfo.java:135-141 | exactly name + " (" + model + " " + serial + ") up: " + uptime text + " @" + address, with an unset text field shown as "null" |

## Left out

- `getBroadcastAddressesFor` (network-interface enumeration) is operating-system I/O.
- The socket part of `probeTo` is UDP I/O that ends on a timeout: the bind, send, receive loop, printing and closing. Only the probe encoding inside it is modelled.
- `main` handles command-line arguments, `System.exit` and console output.
- UTF-8 decoding of the text bytes is a library call. `Probe.ParseInfo` takes it as a function parameter.
- `AccessPoint.APInfo.GetUptime`: `Double.valueOf(uptime).longValue()` is modelled only for a digits-only uptime below 2^53, where the double parse is exact. Fractions, exponents, signs, whitespace, rounding of larger values and the exception on non-numeric text are not modelled.
- `AccessPoint.APInfo.HostAddress`, `AccessPoint.APInfo.GetUptime` and `AccessPoint.APInfo.ToString` throw a NullPointerException in Java when the address or uptime is unset. The model makes these preconditions instead.
- `getName`, `getModel`, `getMac`, `getSerial`, `getVersion` and `getRevision` only return a field. The model reads the fields of `APInfo` directly.
- `InetAddress.getByAddress` also accepts 16-byte IPv6 addresses. `AccessPoint.GetByAddress` does not model that case, because a 32-bit word never encodes to more than four bytes (`Bytes.MinimalBytesLength`).
- `Bytes.ByteBuffer.PutInt` requires four free bytes, where Java throws `BufferOverflowException`. The probe never overflows.
- Java `byte` is signed. The model keeps each byte's unsigned value, which has the same bits, so `getInt` and `getShort` read the same words.
