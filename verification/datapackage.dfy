/** The variable-length data package (`_getDataPackage`): every byte between
    two markers, written out as two uppercase hexadecimal digits.

    The loops that skip to the first marker and copy up to the second have
    no budget of their own: on an empty buffer `read()` and `peek()` return
    -1 for ever. With an unsigned `char` the copy loop takes that -1 as the
    byte 0xFF, appends "FF" for it and goes round again, and the skip loop
    never meets its marker: the model makes that visible as `Spins`. With a
    signed `char` the same -1, and every byte from 0x80 up, gives a negative
    table index: `ReadsOutOfBounds`.
 */
module DataPackage {
  import opened Protocol
  import opened Channel
  import opened Transport

  /** Value of the hexadecimal digit for 0..15, uppercase. */
  function HexDigit(v: nat): (c: char)
    requires v < 16
  {
    if v < 10 then ('0' as int + v) as char else ('A' as int + v - 10) as char
  }

  predicate IsHexDigit(c: char) {
    '0' <= c <= '9' || 'A' <= c <= 'F'
  }

  /** Inverse of HexDigit. */
  function DigitValue(c: char): (r: Option<nat>)
    ensures r.Some? <==> IsHexDigit(c)
    ensures r.Some? ==> r.value < 16 && HexDigit(r.value) == c
  {
    if '0' <= c <= '9' then Some(c as int - '0' as int)
    else if 'A' <= c <= 'F' then Some(c as int - 'A' as int + 10)
    else None
  }

  lemma DigitRoundTrip(v: nat)
    requires v < 16
    ensures IsHexDigit(HexDigit(v)) && DigitValue(HexDigit(v)) == Some(v)
  {
  }

  /** `char hex_char[17]`: the sixteen digits and the zero the initialiser
      leaves in the last slot. */
  const HEX_CHAR: seq<char> := ['0', '1', '2', '3', '4', '5', '6', '7', '8', '9', 'A', 'B', 'C', 'D', 'E', 'F', '\0']

  lemma HexCharTable(i: nat)
    requires i < 16
    ensures HEX_CHAR[i] == HexDigit(i)
  {
  }

  /** Reference encoding: two uppercase digits per byte, high nibble first. */
  function HexOf(bytes: seq<Byte>): (s: string)
    ensures |s| == 2 * |bytes|
    ensures forall i :: 0 <= i < |s| ==> IsHexDigit(s[i])
  {
    if |bytes| == 0 then ""
    else
      DigitRoundTrip(bytes[0] / 16);
      DigitRoundTrip(bytes[0] % 16);
      [HexDigit(bytes[0] / 16), HexDigit(bytes[0] % 16)] + HexOf(bytes[1..])
  }

  /** Decoding of a hexadecimal string, two digits per byte. */
  function UnHex(s: string): Option<seq<Byte>> {
    if |s| == 0 then Some([])
    else if |s| == 1 then None
    else match (DigitValue(s[0]), DigitValue(s[1]), UnHex(s[2..]))
      case (Some(hi), Some(lo), Some(rest)) => Some([hi * 16 + lo] + rest)
      case _ => None
  }

  /** Decoding the encoding of a payload gives the payload back. */
  lemma {:induction false} HexRoundTrip(bytes: seq<Byte>)
    ensures UnHex(HexOf(bytes)) == Some(bytes)
  {
    if |bytes| > 0 {
      var b := bytes[0];
      DigitRoundTrip(b / 16);
      DigitRoundTrip(b % 16);
      var s := HexOf(bytes);
      assert s[2..] == HexOf(bytes[1..]);
      HexRoundTrip(bytes[1..]);
      assert [b / 16 * 16 + b % 16] + bytes[1..] == bytes;
    }
  }

  /** The two digits the copy loop appends for one byte: the table entries
      at the quotient and the remainder of a division by 16, taken with C's
      truncating division, so a negative `temp` always yields a negative
      index. */
  function HexPair(temp: int): (r: Option<string>)
    requires -128 <= temp < 256
    ensures 0 <= temp ==> r == Some([HexDigit(temp / 16), HexDigit(temp % 16)])
    ensures temp < 0 ==> r.None?
  {
    var hi, lo := CDiv(temp, 16), CRem(temp, 16);
    if 0 <= hi < |HEX_CHAR| && 0 <= lo < |HEX_CHAR| then
      HexCharTable(if 0 <= temp then temp / 16 else 0);
      HexCharTable(if 0 <= temp then temp % 16 else 0);
      Some([HEX_CHAR[hi], HEX_CHAR[lo]])
    else None
  }

  /** The skip loop of `_getDataPackage`: it reads until it has read a
      marker, so everything through the first marker is consumed; without a
      marker the loop never ends (None). */
  function SkipThroughMarker(rx: seq<Byte>): (r: Option<seq<Byte>>)
    ensures r.Some? <==> FirstMarker(rx) < |rx|
    ensures r.Some? ==> r.value == rx[FirstMarker(rx) + 1..]
  {
    if |rx| == 0 then None
    else if rx[0] == MARKER then Some(rx[1..])
    else SkipThroughMarker(rx[1..])
  }

  datatype Scan = Scan(text: string, rx: seq<Byte>)

  /** Bytes before the first marker that a signed `char` would make negative. */
  predicate AllBelow80(bytes: seq<Byte>) {
    |bytes| == 0 || (bytes[0] < 0x80 && AllBelow80(bytes[1..]))
  }

  /** The copy loop of `_getDataPackage`: while the next byte is not a
      marker it reads one and appends its two digits. It stops at a marker
      without consuming it. On an empty buffer each read yields -1: with an
      unsigned `char` that is 0xFF, so "FF" is appended and the loop goes
      round for ever (`Spins`); with a signed `char` it is a negative table
      index (`ReadsOutOfBounds`). */
  function HexRun(rx: seq<Byte>, signedChar: bool): (r: Run<Scan>)
    ensures r.Returns? ==> |r.value.rx| > 0 && r.value.rx[0] == MARKER
    ensures r.Returns? ==> IsSuffix(r.value.rx, rx) && |r.value.text| == 2 * (|rx| - |r.value.rx|)
    ensures r.Spins? ==> !signedChar
    ensures r.ReadsOutOfBounds? ==> signedChar
  {
    if Peek(rx) == MARKER then Returns(Scan("", rx))
    else
      // the read returns the byte the peek saw, or -1 on an empty buffer
      match HexPair(ReadAsChar(Peek(rx), signedChar))
      case None => ReadsOutOfBounds
      case Some(pair) =>
        if |rx| == 0 then Spins
        else
          match HexRun(rx[1..], signedChar)
          case Returns(scan) => Returns(Scan(pair + scan.text, scan.rx))
          case Spins => Spins
          case ReadsOutOfBounds => ReadsOutOfBounds
  }

  /** The copy loop returns exactly when a marker follows and, with a signed
      `char`, every byte before it is below 0x80; it then yields the
      encoding of those bytes and leaves the marker buffered. With no marker
      it spins (an unsigned `char` turns the -1 of an empty read into 0xFF)
      or, with a signed `char`, indexes the table at -1. */
  lemma {:induction false} HexRunCharacterised(rx: seq<Byte>, signedChar: bool)
    ensures var n := FirstMarker(rx);
      HexRun(rx, signedChar).Returns? <==> n < |rx| && (signedChar ==> AllBelow80(rx[..n]))
    ensures var n := FirstMarker(rx);
      HexRun(rx, signedChar).Returns? ==> HexRun(rx, signedChar).value == Scan(HexOf(rx[..n]), rx[n..])
    ensures HexRun(rx, signedChar).Spins? <==> !signedChar && FirstMarker(rx) == |rx|
  {
    if |rx| > 0 && rx[0] != MARKER {
      var n := FirstMarker(rx);
      var b := rx[0];
      var tail := rx[1..];
      PayloadStep(rx);
      HexRunCharacterised(tail, signedChar);
      if signedChar && b >= 0x80 {
        assert HexPair(ReadAsChar(b, signedChar)).None?;
      } else {
        assert ReadAsChar(b, signedChar) == b;
      }
    }
  }

  /** Dropping a leading non-marker byte shortens the payload before the
      first marker by that byte. */
  lemma PayloadStep(rx: seq<Byte>)
    requires |rx| > 0 && rx[0] != MARKER
    ensures var n, tail := FirstMarker(rx), rx[1..];
      && FirstMarker(tail) == n - 1
      && tail[n - 1..] == rx[n..]
      && (AllBelow80(rx[..n]) <==> rx[0] < 0x80 && AllBelow80(tail[..n - 1]))
      && HexOf(rx[..n]) == [HexDigit(rx[0] / 16), HexDigit(rx[0] % 16)] + HexOf(tail[..n - 1])
  {
    var n := FirstMarker(rx);
    var b := rx[0];
    var tail := rx[1..];
    assert FirstMarker(tail) == n - 1;
    assert tail[n - 1..] == rx[n..];
    var prefix := rx[..n];
    assert prefix[0] == b;
    assert prefix[1..] == tail[..n - 1];
  }

  /** What `_getDataPackage` returns, the string it leaves in `package`,
      and the serial link afterwards. */
  datatype Package = Package(status: Byte, text: string, serial: Serial)

  /** The timed polling loop of `_getDataPackage` (one tick per iteration),
      followed by its flush, with `timer` the budget still to run. The
      package is always empty at the top of an iteration. */
  function PackagePoll(s: Serial, timer: nat, signedChar: bool): (r: Run<Package>)
    ensures r.Returns? ==> r.value.status == ACK_SUCCESS || r.value.status == ACK_SERIALTIMEOUT
    ensures r.Returns? && r.value.status == ACK_SUCCESS ==>
      && |r.value.text| > 0
      && UnHex(r.value.text).Some?
      && HexOf(UnHex(r.value.text).value) == r.value.text
    ensures r.Returns? && r.value.status == ACK_SUCCESS ==>
      |r.value.serial.rx| > 0 && r.value.serial.rx[0] == MARKER
    ensures r.Returns? && r.value.status == ACK_SUCCESS ==>
      exists payload: seq<Byte> :: |payload| > 0 && MARKER !in payload && r.value.text == HexOf(payload)
    ensures r.Returns? && r.value.status == ACK_SERIALTIMEOUT ==>
      r.value.text == "" && r.value.serial.rx == []
    ensures r.Returns? ==> r.value.serial.tx == s.tx && IsSuffix(r.value.serial.pending, s.pending)
    decreases timer
  {
    if timer == 0 then
      Returns(Package(ACK_SERIALTIMEOUT, "", Flush(s)))
    else if Available(s) > 0 then
      match SkipThroughMarker(s.rx)
      case None => Spins
      case Some(afterMarker) =>
        match HexRun(afterMarker, signedChar)
        case Spins => Spins
        case ReadsOutOfBounds => ReadsOutOfBounds
        case Returns(scan) =>
          if |scan.text| > 0 then
            HexRunCharacterised(afterMarker, signedChar);
            var payload := afterMarker[..FirstMarker(afterMarker)];
            HexRoundTrip(payload);
            assert scan.text == HexOf(payload) && MARKER !in payload;
            Returns(Package(ACK_SUCCESS, scan.text, s.(rx := scan.rx)))
          else
            var r := PackagePoll(Tick(s.(rx := scan.rx)), timer - 1, signedChar);
            if r.Returns? then
              TickSuffix(s.(rx := scan.rx));
              IsSuffixTrans(r.value.serial.pending, Tick(s.(rx := scan.rx)).pending, s.pending);
              r
            else r
    else
      var r := PackagePoll(Tick(s), timer - 1, signedChar);
      if r.Returns? then
        TickSuffix(s);
        IsSuffixTrans(r.value.serial.pending, Tick(s).pending, s.pending);
        r
      else r
  }

  /** `_getDataPackage(package)`: success exactly when a nonempty package
      was copied, which is then the hexadecimal encoding of the bytes
      between two markers, the closing one left buffered; on a timeout the
      package is empty and the buffer flushed. Nothing is written to the
      module. */
  function GetDataPackage(s: Serial, signedChar: bool): (r: Run<Package>)
    ensures r.Returns? ==> (r.value.status == ACK_SUCCESS <==> r.value.text != "")
    ensures r.Returns? ==> (r.value.status == ACK_SERIALTIMEOUT <==> r.value.text == "")
    ensures r.Returns? && r.value.status == ACK_SUCCESS ==>
      UnHex(r.value.text).Some? && HexOf(UnHex(r.value.text).value) == r.value.text
    ensures r.Returns? && r.value.status == ACK_SUCCESS ==>
      |r.value.serial.rx| > 0 && r.value.serial.rx[0] == MARKER
    ensures r.Returns? && r.value.status == ACK_SUCCESS ==>
      exists payload: seq<Byte> :: |payload| > 0 && MARKER !in payload && r.value.text == HexOf(payload)
    ensures r.Returns? && r.value.status == ACK_SERIALTIMEOUT ==> r.value.serial.rx == []
    ensures r.Returns? ==> r.value.serial.tx == s.tx
  {
    PackagePoll(s, SERIAL_TIMEOUT, signedChar)
  }

  /** A round that finds a marker and copies a nonempty package up to the
      next one ends the poll with that package. */
  lemma PackageFound(s: Serial, timer: nat, signedChar: bool, scan: Scan)
    requires timer > 0 && |s.rx| > 0
    requires SkipThroughMarker(s.rx).Some?
    requires HexRun(SkipThroughMarker(s.rx).value, signedChar) == Returns(scan)
    requires |scan.text| > 0
    ensures PackagePoll(s, timer, signedChar) == Returns(Package(ACK_SUCCESS, scan.text, s.(rx := scan.rx)))
  {
  }

  /** The skip loop stops right behind the first marker. */
  lemma SkipsToPayload(before: seq<Byte>, tail: seq<Byte>)
    requires MARKER !in before
    ensures SkipThroughMarker(before + [MARKER] + tail) == Some(tail)
  {
    var rx := before + [MARKER] + tail;
    assert rx == before + ([MARKER] + tail);
    FirstMarkerAfter(before, [MARKER] + tail);
    assert rx[|before| + 1..] == tail;
  }

  lemma LeadingMarker(payload: seq<Byte>, rest: seq<Byte>)
    ensures [MARKER] + payload + [MARKER] + rest == [MARKER] + (payload + [MARKER] + rest)
  {
  }

  /** A leading marker is all the skip loop consumes. */
  lemma SkipsLeadingMarker(tail: seq<Byte>)
    ensures SkipThroughMarker([MARKER] + tail) == Some(tail)
  {
    assert ([MARKER] + tail)[1..] == tail;
  }

  /** The copy loop encodes the payload up to the closing marker. */
  lemma CopiesPayload(payload: seq<Byte>, rest: seq<Byte>, signedChar: bool)
    requires MARKER !in payload
    ensures HexRun(payload + [MARKER] + rest, signedChar)
      == if signedChar && !AllBelow80(payload) then ReadsOutOfBounds
         else Returns(Scan(HexOf(payload), [MARKER] + rest))
  {
    var rx := payload + [MARKER] + rest;
    assert rx == payload + ([MARKER] + rest);
    FirstMarkerAfter(payload, [MARKER] + rest);
    assert rx[..|payload|] == payload;
    assert rx[|payload|..] == [MARKER] + rest;
    HexRunCharacterised(rx, signedChar);
  }

  /** A package buffered between two markers is returned hex-encoded, the
      closing marker stays buffered, and decoding gives the payload back. */
  lemma PackageDecoded(s: Serial, signedChar: bool, before: seq<Byte>, payload: seq<Byte>, rest: seq<Byte>)
    requires MARKER !in before && MARKER !in payload && |payload| > 0
    requires signedChar ==> AllBelow80(payload)
    requires s.rx == before + [MARKER] + payload + [MARKER] + rest
    ensures GetDataPackage(s, signedChar) == Returns(Package(ACK_SUCCESS, HexOf(payload), s.(rx := [MARKER] + rest)))
    ensures |HexOf(payload)| == 2 * |payload|
    ensures UnHex(HexOf(payload)) == Some(payload)
  {
    var tail := payload + [MARKER] + rest;
    assert s.rx == before + [MARKER] + tail;
    SkipsToPayload(before, tail);
    CopiesPayload(payload, rest, signedChar);
    PackageFound(s, SERIAL_TIMEOUT, signedChar, Scan(HexOf(payload), [MARKER] + rest));
    HexRoundTrip(payload);
  }

  /** The same for a buffer that starts with the opening marker. */
  lemma FrontPackageDecoded(s: Serial, signedChar: bool, payload: seq<Byte>, rest: seq<Byte>)
    requires MARKER !in payload && |payload| > 0
    requires signedChar ==> AllBelow80(payload)
    requires s.rx == [MARKER] + payload + [MARKER] + rest
    ensures GetDataPackage(s, signedChar) == Returns(Package(ACK_SUCCESS, HexOf(payload), s.(rx := [MARKER] + rest)))
    ensures UnHex(HexOf(payload)) == Some(payload)
  {
    var tail := payload + [MARKER] + rest;
    LeadingMarker(payload, rest);
    SkipsLeadingMarker(tail);
    CopiesPayload(payload, rest, signedChar);
    PackageFound(s, SERIAL_TIMEOUT, signedChar, Scan(HexOf(payload), [MARKER] + rest));
    HexRoundTrip(payload);
  }

  /** On a signed-`char` platform a payload byte from 0x80 up indexes the
      digit table out of bounds. */
  lemma SignedHighByteOutOfBounds(s: Serial, before: seq<Byte>, payload: seq<Byte>, rest: seq<Byte>)
    requires MARKER !in before && MARKER !in payload
    requires !AllBelow80(payload)
    requires s.rx == before + [MARKER] + payload + [MARKER] + rest
    ensures GetDataPackage(s, true) == ReadsOutOfBounds
  {
    var tail := payload + [MARKER] + rest;
    assert s.rx == before + [MARKER] + tail;
    SkipsToPayload(before, tail);
    CopiesPayload(payload, rest, true);
  }

  /** Two adjacent markers and nothing after them: the empty package is not
      accepted, the next round takes the second marker as an opening one,
      and the copy loop then waits on an empty buffer for ever. */
  lemma EmptyPackageNeverCompletes(s: Serial, signedChar: bool)
    requires s.rx == [MARKER, MARKER] && s.pending == []
    ensures GetDataPackage(s, signedChar) == (if signedChar then ReadsOutOfBounds else Spins)
  {
    assert s.rx[1..] == [MARKER];
    var s1 := Tick(s.(rx := [MARKER]));
    assert s1.rx == [MARKER];
    assert s1.rx[1..] == [];
  }

  /** With nothing buffered and nothing arriving, the poll uses up its
      budget, flushes and reports a serial timeout with an empty package. */
  lemma {:induction false} SilentPackageTimesOut(s: Serial, timer: nat, signedChar: bool)
    requires s.rx == [] && Scheduled(s.pending) == 0
    ensures PackagePoll(s, timer, signedChar).Returns?
    ensures PackagePoll(s, timer, signedChar).value.status == ACK_SERIALTIMEOUT
    ensures PackagePoll(s, timer, signedChar).value.text == ""
    decreases timer
  {
    if timer > 0 {
      var s' := Tick(s);
      if |s.pending| > 0 {
        assert |s.pending[0]| == 0;
        assert s'.rx == [];
      }
      SilentPackageTimesOut(s', timer - 1, signedChar);
    }
  }

  lemma HexOfCons(b: Byte, bytes: seq<Byte>)
    ensures HexOf([b] + bytes) == [HexDigit(b / 16), HexDigit(b % 16)] + HexOf(bytes)
  {
    assert ([b] + bytes)[1..] == bytes;
  }

  lemma HexOfAscii()
    ensures HexOf([0x41, 0x42, 0x31, 0x32]) == "41423132"
  {
    HexOfCons(0x32, []);
    assert [0x31, 0x32] == [0x31] + [0x32];
    HexOfCons(0x31, [0x32]);
    assert [0x42, 0x31, 0x32] == [0x42] + [0x31, 0x32];
    HexOfCons(0x42, [0x31, 0x32]);
    assert [0x41, 0x42, 0x31, 0x32] == [0x41] + [0x42, 0x31, 0x32];
    HexOfCons(0x41, [0x42, 0x31, 0x32]);
  }

  /** The bytes 'A' 'B' '1' '2' between markers come back as the hexadecimal
      encoding of their codes, "41423132". */
  lemma AsciiPayloadIsEncoded(s: Serial, signedChar: bool)
    requires s.rx == [MARKER, 0x41, 0x42, 0x31, 0x32, MARKER]
    ensures GetDataPackage(s, signedChar) == Returns(Package(ACK_SUCCESS, "41423132", s.(rx := [MARKER])))
  {
    var payload: seq<Byte> := [0x41, 0x42, 0x31, 0x32];
    assert MARKER !in payload;
    assert AllBelow80(payload);
    assert s.rx == [] + [MARKER] + payload + [MARKER] + [];
    HexOfAscii();
    PackageDecoded(s, signedChar, [], payload, []);
    assert [MARKER] + [] == [MARKER];
  }
}
