/**
 * The access-point descriptor of APInfo.java: the address and port from
 * the response header, and up to seven text fields taken by position from
 * the newline-separated system-information text.
 */
module AccessPoint {
  import opened Wrappers
  import opened Bytes
  import opened Text
  import opened Uptime

  /** An IPv4 address as its four octets, most significant first. */
  type Octets = s: seq<Byte> | |s| == 4 witness [0, 0, 0, 0]

  /**
   * InetAddress.getByAddress on the bytes it is given: four bytes make an
   * IPv4 address; any other length is refused (UnknownHostException), which
   * the constructor swallows. (Sixteen bytes would make an IPv6 address, but
   * the bytes here come from a 32-bit value and are never more than four.)
   */
  function GetByAddress(bytes: seq<Byte>): Option<Octets>
  {
    if |bytes| == 4 then Some(bytes) else None
  }

  /** The address the constructor derives from the header word. */
  function AddressOf(word: Int32): Option<Octets>
  {
    GetByAddress(MinimalBytes(word))
  }

  /**
   * The address is set exactly when the minimal two's-complement encoding of
   * the word takes four bytes, i.e. when the word read unsigned lies in
   * 0x00800000..0xFF7FFFFF; it is then the four big-endian bytes of the word.
   */
  lemma AddressOfCases(word: Int32)
    ensures AddressOf(word).Some? <==> 0x0080_0000 <= word % 0x1_0000_0000 <= 0xFF7F_FFFF
    ensures AddressOf(word).Some? ==> AddressOf(word).value == Int32Bytes(word)
  {
    assert Half(3) == 0x80_0000 && Half(4) == 0x8000_0000 && Pow256(4) == 0x1_0000_0000;
    MinimalBytesLength(word, 3);
    MinimalBytesLength(word, 4);
    if |MinimalBytes(word)| == 4 {
      MinimalBytesFixed(word, 4);
    }
  }

  /** A worked case of the refusal: 0.1.2.3 has a three-byte minimal encoding and is dropped. */
  lemma AddressOfShortWord()
    ensures AddressOf(0x0001_0203) == None
    ensures AddressOf(0x0A00_0001) == Some([10, 0, 0, 1])
  {
    AddressOfCases(0x0001_0203);
    AddressOfCases(0x0A00_0001);
    assert Int32Bytes(0x0A00_0001) == [10, 0, 0, 1];
  }

  /** Inet4Address.getHostAddress: the octets in decimal, joined by dots. */
  function DottedQuad(octets: Octets): string
  {
    Join([DecimalString(octets[0]), DecimalString(octets[1]), DecimalString(octets[2]), DecimalString(octets[3])], '.')
  }

  /** Reads "a.b.c.d" with four decimal octets back into octets. */
  function ParseDottedQuad(text: string): Option<Octets>
  {
    var parts := Segments(text, '.');
    if |parts| == 4 && forall i :: 0 <= i < 4 ==> IsDigits(parts[i]) && ParseDecimal(parts[i]) < 256
    then Some([ParseDecimal(parts[0]), ParseDecimal(parts[1]), ParseDecimal(parts[2]), ParseDecimal(parts[3])])
    else None
  }

  /** The rendered address reads back as the same four octets. */
  lemma ParseDottedQuadRoundTrip(octets: Octets)
    ensures ParseDottedQuad(DottedQuad(octets)) == Some(octets)
  {
    var parts := [DecimalString(octets[0]), DecimalString(octets[1]), DecimalString(octets[2]), DecimalString(octets[3])];
    assert SeparatorFree(parts, '.') by {
      forall i | 0 <= i < 4 ensures '.' !in parts[i] {
        assert IsDigits(parts[i]);
      }
    }
    SegmentsJoin(parts, '.');
    ParseDecimalString(octets[0]);
    ParseDecimalString(octets[1]);
    ParseDecimalString(octets[2]);
    ParseDecimalString(octets[3]);
    assert forall i :: 0 <= i < 4 ==> IsDigits(parts[i]) && ParseDecimal(parts[i]) < 256;
    assert [octets[0], octets[1], octets[2], octets[3]] == octets;
  }

  /** How Java's string concatenation shows a field: its text, or "null" when unset. */
  function Show(field: Option<string>): string
  {
    if field.Some? then field.value else "null"
  }

  /** The seven optional text fields of a descriptor. */
  datatype SysInfo = SysInfo(
    name: Option<string>,
    model: Option<string>,
    mac: Option<string>,
    serial: Option<string>,
    version: Option<string>,
    uptime: Option<string>,
    revision: Option<string>)

  /** Line positions of the fields; positions 6 and 7 are unused. */
  const NAME_LINE: nat := 0
  const MODEL_LINE: nat := 1
  const MAC_LINE: nat := 2
  const SERIAL_LINE: nat := 3
  const VERSION_LINE: nat := 4
  const UPTIME_LINE: nat := 5
  const REVISION_LINE: nat := 8

  /** Line `p`, when there is one. */
  function Line(lines: seq<string>, p: nat): Option<string>
  {
    if p < |lines| then Some(lines[p]) else None
  }

  /** The field table: each field takes the line at its position, if present. */
  function LayoutFields(lines: seq<string>): SysInfo
  {
    SysInfo(Line(lines, NAME_LINE), Line(lines, MODEL_LINE), Line(lines, MAC_LINE), Line(lines, SERIAL_LINE),
            Line(lines, VERSION_LINE), Line(lines, UPTIME_LINE), Line(lines, REVISION_LINE))
  }

  /** With k lines: name needs k >= 1, model 2, mac 3, serial 4, version 5, uptime 6, revision 9. */
  lemma LayoutFieldsByCount(lines: seq<string>)
    ensures var f, k := LayoutFields(lines), |lines|;
      (f.name.Some? <==> k >= 1) && (f.model.Some? <==> k >= 2) && (f.mac.Some? <==> k >= 3) &&
      (f.serial.Some? <==> k >= 4) && (f.version.Some? <==> k >= 5) && (f.uptime.Some? <==> k >= 6) &&
      (f.revision.Some? <==> k >= 9)
    ensures var f := LayoutFields(lines);
      (f.name.Some? ==> f.name.value == lines[0]) && (f.model.Some? ==> f.model.value == lines[1]) &&
      (f.mac.Some? ==> f.mac.value == lines[2]) && (f.serial.Some? ==> f.serial.value == lines[3]) &&
      (f.version.Some? ==> f.version.value == lines[4]) && (f.uptime.Some? ==> f.uptime.value == lines[5]) &&
      (f.revision.Some? ==> f.revision.value == lines[8])
  {
  }

  /** With no lines at all, every text field stays unset. */
  lemma LayoutFieldsNoLines()
    ensures LayoutFields([]) == SysInfo(None, None, None, None, None, None, None)
  {
  }

  /** Positions the field table reads. */
  predicate IsFieldLine(p: nat)
  {
    p <= UPTIME_LINE || p == REVISION_LINE
  }

  /** Lines 6, 7 and 9 onwards never affect a field. */
  lemma LayoutIgnoresOtherLines(lines: seq<string>, other: seq<string>)
    requires |lines| == |other|
    requires forall p: nat :: p < |lines| && IsFieldLine(p) ==> lines[p] == other[p]
    ensures LayoutFields(lines) == LayoutFields(other)
  {
    assert IsFieldLine(0) && IsFieldLine(1) && IsFieldLine(2) && IsFieldLine(3);
    assert IsFieldLine(4) && IsFieldLine(5) && IsFieldLine(8);
  }

  /** Lines beyond the ninth can be cut off without changing any field. */
  lemma LayoutIgnoresExtraLines(lines: seq<string>)
    requires |lines| > 9
    ensures LayoutFields(lines) == LayoutFields(lines[..9])
  {
  }

  /**
   * A worked response text of six fields ending in a newline: the trailing
   * newline adds no line, so uptime is the last field set and revision is unset.
   */
  lemma SixFieldExample()
    ensures var lines := ["Office-AP", "AP-300", "00:11:22:33:44:55", "SN123", "1.2.3", "90000"];
      LayoutFields(SplitLines(Join(lines, NEWLINE) + "\n")) ==
      SysInfo(Some("Office-AP"), Some("AP-300"), Some("00:11:22:33:44:55"), Some("SN123"), Some("1.2.3"),
              Some("90000"), None)
  {
    var lines := ["Office-AP", "AP-300", "00:11:22:33:44:55", "SN123", "1.2.3", "90000"];
    assert SeparatorFree(lines, NEWLINE);
    var body := Join(lines, NEWLINE);
    SegmentsJoin(lines, NEWLINE);
    assert body[9] == NEWLINE;
    SplitLinesTrailingNewline(body);
  }

  /** The header word of 192.168.1.50 (negative as a Java int) converts to those four octets. */
  lemma AddressExample()
    ensures AddressOf(-0x3F57_FECE) == Some([192, 168, 1, 50])
  {
    AddressOfCases(-0x3F57_FECE);
    assert -0x3F57_FECE % 0x1_0000_0000 == 0xC0A8_0132;
    assert FixedBytes(0xC0, 1) == [0xC0];
    assert FixedBytes(0xC0A8, 2) == [0xC0, 0xA8];
    assert FixedBytes(0xC0A801, 3) == [0xC0, 0xA8, 0x01];
    assert Int32Bytes(-0x3F57_FECE) == FixedBytes(0xC0A8_0132, 4) == [0xC0, 0xA8, 0x01, 0x32];
  }

  /**
   * The descriptor. Fields are set once, by the constructor; a field left
   * unset is None, where the source leaves null.
   */
  class APInfo {
    var address: Option<Octets>
    var port: Int16
    var name: Option<string>
    var model: Option<string>
    var mac: Option<string>
    var serial: Option<string>
    var version: Option<string>
    var uptime: Option<string>
    var revision: Option<string>

    /** The text fields, gathered. */
    ghost function Fields(): SysInfo
      reads this
    {
      SysInfo(name, model, mac, serial, version, uptime, revision)
    }

    /** This descriptor is what the constructor makes of the header word, port and text. */
    ghost predicate Describes(word: Int32, port: Int16, sysInfo: string)
      reads this
    {
      address == AddressOf(word) && this.port == port && Fields() == LayoutFields(SplitLines(sysInfo))
    }

    /**
     * APInfo(int, short, String): converts the word to an address (left
     * unset when the conversion is refused), keeps the port, splits the text
     * into lines and fills the fields by falling through from the highest
     * position present down to the name. No line count makes it fail.
     */
    constructor (word: Int32, port: Int16, sysInfo: string)
      ensures address == AddressOf(word) && this.port == port
      ensures Fields() == LayoutFields(SplitLines(sysInfo))
      ensures Describes(word, port, sysInfo)
    {
      var bytes := MinimalBytes(word);
      address := GetByAddress(bytes);
      this.port := port;
      name, model, mac, serial, version, uptime, revision := None, None, None, None, None, None, None;
      var lines := SplitLines(sysInfo);
      var count := |lines|;
      // default: (nine or more lines)
      if count >= 9 {
        revision := Some(lines[REVISION_LINE]);
      }
      // case 8, case 7 (unused), case 6:
      if count >= 6 {
        uptime := Some(lines[UPTIME_LINE]);
      }
      // case 5:
      if count >= 5 {
        version := Some(lines[VERSION_LINE]);
      }
      // case 4:
      if count >= 4 {
        serial := Some(lines[SERIAL_LINE]);
      }
      // case 3:
      if count >= 3 {
        mac := Some(lines[MAC_LINE]);
      }
      // case 2:
      if count >= 2 {
        model := Some(lines[MODEL_LINE]);
      }
      // case 1:
      if count >= 1 {
        name := Some(lines[NAME_LINE]);
      }
      // case 0: nothing
    }

    /** getAddress: the dotted-decimal text of the address, which reads back as the address. */
    function HostAddress(): (text: string)
      requires address.Some?
      reads this
      ensures ParseDottedQuad(text) == address
    {
      ParseDottedQuadRoundTrip(address.value);
      DottedQuad(address.value)
    }

    /**
     * getUptime: the uptime text read as whole seconds, cut into days,
     * hours, minutes and seconds and rendered.
     */
    method GetUptime() returns (text: string)
      requires uptime.Some? && IsWholeSeconds(uptime.value)
      ensures text == FormatUptime(ParseDecimal(uptime.value))
      ensures exists d :: IsSplitOf(d, ParseDecimal(uptime.value)) && text == UptimeText(d)
    {
      var seconds := ParseDecimal(uptime.value);
      var d := SplitSeconds(seconds);
      SplitUnique(d, seconds);
      text := UptimeText(d);
    }

    /** toString: "name (model serial) up: <uptime> @<address>", unset text fields shown as "null". */
    method ToString() returns (text: string)
      requires address.Some? && uptime.Some? && IsWholeSeconds(uptime.value)
      ensures text == Show(name) + " (" + Show(model) + " " + Show(serial) + ")" +
                      " up: " + FormatUptime(ParseDecimal(uptime.value)) + " @" + DottedQuad(address.value)
    {
      var up := GetUptime();
      text := Show(name) + " (" + Show(model) + " " + Show(serial) + ")" + " up: " + up + " @" + HostAddress();
    }
  }
}
