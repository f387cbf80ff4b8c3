/** The command layer of `SFM_Module`: each public command is one exchange
    (`sendCmd`) followed by a check of the echoed acknowledgement type and a
    mapping of its status byte.

    The callers declare `ackType`, `q1`, `q2` without initialising them and
    `sendCmd` writes them only on a trusted acknowledgement, so each command
    takes the values those locals happen to hold as `stale`.
    `(uid >> 8) & 0xFF`, `uid & 0xFF` and `(q1 << 8) | q2` are written as
    division, remainder and multiplication by 256, which agree with the
    shifts and masks for 16-bit and 8-bit operands.
 */
module Commands {
  import opened Protocol
  import opened Frame
  import opened Channel
  import opened Transport
  import opened DataPackage

  /** High byte of a 16-bit uid, `(uid >> 8) & 0xFF`. */
  function High(uid: Word): Byte {
    uid / 256
  }

  /** Low byte of a 16-bit uid, `uid & 0xFF`. */
  function Low(uid: Word): Byte {
    uid % 256
  }

  /** `(q1 << 8) | q2`: the 16-bit value whose high byte is q1 and low byte q2. */
  function Join(q1: Byte, q2: Byte): (w: Word)
    ensures High(w) == q1 && Low(w) == q2
    ensures w == 0 <==> q1 == 0 && q2 == 0
  {
    q1 * 256 + q2
  }

  /** Splitting a uid into the two bytes a command carries and joining them
      again gives the uid back. */
  lemma SplitJoin(uid: Word)
    ensures Join(High(uid), Low(uid)) == uid
  {
  }

  /** Two byte pairs join to the same value only if they are equal. */
  lemma JoinInjective(a1: Byte, a2: Byte, b1: Byte, b2: Byte)
    ensures Join(a1, a2) == Join(b1, b2) ==> a1 == b1 && a2 == b2
  {
    if Join(a1, a2) == Join(b1, b2) {
      assert High(Join(a1, a2)) == a1 && High(Join(b1, b2)) == b1;
    }
  }

  /** What a command returns and the driver afterwards. */
  datatype Reply = Reply(status: Byte, driver: Driver)

  /** The trusted acknowledgement of an exchange, when there was one. */
  predicate Trusted(a: Ack) {
    a.exit.Acknowledged? && |a.driver.ackBuffer| == FRAME_SIZE
  }

  /** How `_getCmdReturn` maps an exchange: a trusted acknowledgement gives
      its status byte when it echoes the command and SFM_ACK_FAIL when it
      does not; any other exit gives SFM_ACK_FAIL or SFM_ACK_SERIALTIMEOUT
      with the input flushed. */
  predicate EchoMapped(d: Driver, stale: AckFields, cmdType: Byte, p1: Byte, p2: Byte, p3: Byte, r: Reply)
    requires Valid(d)
  {
    var a := SendCmd(d, cmdType, p1, p2, p3, stale);
    && |r.driver.ackBuffer| == FRAME_SIZE
    && (Trusted(a) ==> r.status == (if r.driver.ackBuffer[1] == cmdType then r.driver.ackBuffer[4] else ACK_FAIL))
    && (!a.exit.Acknowledged? ==> (r.status == ACK_FAIL || r.status == ACK_SERIALTIMEOUT) && r.driver.serial.rx == [])
  }

  /** `_getCmdReturn(cmdType, p1, p2, p3)`: the status byte when the echoed
      type equals the command, SFM_ACK_FAIL otherwise. */
  function GetCmdReturn(d: Driver, stale: AckFields, cmdType: Byte, p1: Byte := 0, p2: Byte := 0, p3: Byte := 0): (r: Reply)
    requires Valid(d)
    ensures Valid(r.driver)
    ensures r.driver.cmdBuffer == CommandFrame(cmdType, p1, p2, p3)
    ensures r.driver.serial.tx == d.serial.tx + CommandFrame(cmdType, p1, p2, p3)
    ensures r.driver.uuid == d.uuid && r.driver.userCount == d.userCount
    ensures EchoMapped(d, stale, cmdType, p1, p2, p3, r)
    ensures r.status == ACK_SUCCESS ==>
      && SendCmd(d, cmdType, p1, p2, p3, stale).exit.Acknowledged?
      && ChecksumValid(r.driver.ackBuffer)
      && r.driver.ackBuffer[1] == cmdType
      && r.driver.ackBuffer[4] == ACK_SUCCESS
  {
    var a := SendCmd(d, cmdType, p1, p2, p3, stale);
    Reply(if a.fields.ackType == cmdType then a.status else ACK_FAIL, a.driver)
  }

  /** A trusted acknowledgement is mapped by its type alone: its status when
      it echoes the command, SFM_ACK_FAIL when it does not. */
  lemma {:induction false} EchoGuard(d: Driver, stale: AckFields, cmdType: Byte, p1: Byte, p2: Byte, p3: Byte, m: nat,
                  garbage: seq<Byte>, ack: seq<Byte>, rest: seq<Byte>, later: seq<seq<Byte>>)
    requires Valid(d) && m < SERIAL_TIMEOUT
    requires MARKER !in garbage && |garbage| < SERIAL_TIMEOUT
    requires ChecksumValid(ack) && ack[0] == MARKER
    requires d.serial.pending == Silence(m) + [garbage + ack + rest] + later
    ensures var r := GetCmdReturn(d, stale, cmdType, p1, p2, p3);
      && r.status == (if ack[1] == cmdType then ack[4] else ACK_FAIL)
      && r.driver.serial.rx == rest
  {
    ExchangeSkipsGarbage(d, cmdType, p1, p2, p3, stale, m, garbage, ack, rest, later);
  }

  /** `setRingColor(startColor, endColor = -1, period = 500)`: the period in
      tens of milliseconds, clamped to 30..200, and an end colour of -1
      standing for the start colour. */
  function SetRingColor(d: Driver, stale: AckFields, startColor: Byte, endColor: Int8 := -1, period: Word := 500): (r: Reply)
    requires Valid(d)
    ensures Valid(r.driver)
    ensures var f := r.driver.cmdBuffer;
      && f == CommandFrame(0xC3, f[2], f[3], f[4])
      && f[2] == startColor
      && f[3] == (if endColor == -1 then startColor else ToUint8(endColor))
      && 30 <= f[4] <= 200
      && (300 <= period < 2010 ==> f[4] == period / 10)
      && (period < 300 ==> f[4] == 30)
      && (period >= 2010 ==> f[4] == 200)
    ensures var f := r.driver.cmdBuffer; EchoMapped(d, stale, 0xC3, f[2], f[3], f[4], r)
    ensures r.status == ACK_SUCCESS ==> r.driver.ackBuffer[1] == 0xC3 && ChecksumValid(r.driver.ackBuffer)
  {
    // the period is taken in tens of milliseconds and clamped to 30..200
    var p: Byte := Constrain(period / 10, 30, 200);
    // an end colour of -1 means "same as the start colour", kept as a signed byte
    var end: Int8 := if endColor == -1 then ToInt8(startColor) else endColor;
    Int8RoundTrip(startColor, endColor);
    GetCmdReturn(d, stale, 0xC3, startColor, ToUint8(end), p)
  }

  /** `register_3c3r_1st(uid = 0)`: the uid's two bytes and the default user role. */
  function Register1st(d: Driver, stale: AckFields, uid: Word := 0): (r: Reply)
    requires Valid(d)
    ensures Valid(r.driver)
    ensures var f := r.driver.cmdBuffer;
      f == CommandFrame(0x01, f[2], f[3], DEFAULT_USERROLE) && Join(f[2], f[3]) == uid
    ensures var f := r.driver.cmdBuffer; EchoMapped(d, stale, 0x01, f[2], f[3], DEFAULT_USERROLE, r)
    ensures r.status == ACK_SUCCESS ==> r.driver.ackBuffer[1] == 0x01 && ChecksumValid(r.driver.ackBuffer)
  {
    SplitJoin(uid);
    GetCmdReturn(d, stale, 0x01, High(uid), Low(uid), DEFAULT_USERROLE)
  }

  /** `register_3c3r_2nd()` */
  function Register2nd(d: Driver, stale: AckFields): (r: Reply)
    requires Valid(d)
    ensures Valid(r.driver)
    ensures r.driver.cmdBuffer == CommandFrame(0x02, 0, 0, 0)
    ensures EchoMapped(d, stale, 0x02, 0, 0, 0, r)
    ensures r.status == ACK_SUCCESS ==> r.driver.ackBuffer[1] == 0x02 && ChecksumValid(r.driver.ackBuffer)
  {
    GetCmdReturn(d, stale, 0x02)
  }

  /** A status and a 16-bit value handed back through a reference. */
  datatype UidReply = UidReply(status: Byte, uid: Word, driver: Driver)

  /** `register_3c3r_3rd(returnUid)`: the registered uid on a trusted
      0x03 acknowledgement carrying SFM_ACK_SUCCESS, otherwise uid 0 and
      SFM_ACK_FAIL. Its test of the status keeps stale locals out of the result. */
  function Register3rd(d: Driver, stale: AckFields): (r: UidReply)
    requires Valid(d)
    ensures Valid(r.driver)
    ensures r.driver.cmdBuffer == CommandFrame(0x03, 0, 0, 0)
    ensures r.status == ACK_SUCCESS || r.status == ACK_FAIL
    ensures var b := r.driver.ackBuffer;
      r.status == ACK_SUCCESS <==>
        SendCmd(d, 0x03, 0, 0, 0, stale).exit.Acknowledged? && b[1] == 0x03 && b[4] == ACK_SUCCESS
    ensures var b := r.driver.ackBuffer;
      r.uid == (if r.status == ACK_SUCCESS then Join(b[2], b[3]) else 0)
  {
    var a := SendCmd(d, 0x03, 0x00, 0x00, 0x00, stale);
    if a.fields.ackType == 0x03 && a.status == ACK_SUCCESS then
      UidReply(ACK_SUCCESS, Join(a.fields.q1, a.fields.q2), a.driver)
    else
      UidReply(ACK_FAIL, 0, a.driver)
  }

  /** `deleteUser(uid)` */
  function DeleteUser(d: Driver, stale: AckFields, uid: Word): (r: Reply)
    requires Valid(d)
    ensures Valid(r.driver)
    ensures var f := r.driver.cmdBuffer;
      f == CommandFrame(0x04, f[2], f[3], 0) && Join(f[2], f[3]) == uid
    ensures var f := r.driver.cmdBuffer; EchoMapped(d, stale, 0x04, f[2], f[3], 0, r)
    ensures r.status == ACK_SUCCESS ==> r.driver.ackBuffer[1] == 0x04 && ChecksumValid(r.driver.ackBuffer)
  {
    SplitJoin(uid);
    GetCmdReturn(d, stale, 0x04, High(uid), Low(uid))
  }

  /** `deleteAllUser()` */
  function DeleteAllUser(d: Driver, stale: AckFields): (r: Reply)
    requires Valid(d)
    ensures Valid(r.driver)
    ensures r.driver.cmdBuffer == CommandFrame(0x05, 0, 0, 0)
    ensures EchoMapped(d, stale, 0x05, 0, 0, 0, r)
    ensures r.status == ACK_SUCCESS ==> r.driver.ackBuffer[1] == 0x05 && ChecksumValid(r.driver.ackBuffer)
  {
    GetCmdReturn(d, stale, 0x05)
  }

  /** `recognition_1v1(uid)` */
  function Recognition1v1(d: Driver, stale: AckFields, uid: Word): (r: Reply)
    requires Valid(d)
    ensures Valid(r.driver)
    ensures var f := r.driver.cmdBuffer;
      f == CommandFrame(0x0B, f[2], f[3], 0) && Join(f[2], f[3]) == uid
    ensures var f := r.driver.cmdBuffer; EchoMapped(d, stale, 0x0B, f[2], f[3], 0, r)
    ensures r.status == ACK_SUCCESS ==> r.driver.ackBuffer[1] == 0x0B && ChecksumValid(r.driver.ackBuffer)
  {
    SplitJoin(uid);
    GetCmdReturn(d, stale, 0x0B, High(uid), Low(uid))
  }

  /** The status and uid `recognition_1vN` hands back. */
  datatype Match = Match(status: Byte, uid: Word)

  /** The mapping of `recognition_1vN` applied to the type, fields and
      status `sendCmd` left in its locals. */
  function MatchOutcome(fields: AckFields, q3: Byte, returnUid: Word): (r: Match)
    ensures r.status == ACK_SUCCESS || r.status == ACK_FAIL
    ensures fields.ackType != 0x0C ==> r == Match(ACK_FAIL, returnUid)
    ensures fields.ackType == 0x0C ==> r.uid == Join(fields.q1, fields.q2)
    ensures fields.ackType == 0x0C ==>
      (r.status == ACK_FAIL <==> fields.q1 == 0 && fields.q2 == 0 && q3 != ACK_SUCCESS)
  {
    if fields.ackType == 0x0C then
      // the identifier is q1 (high byte) joined with q2; zero marks a failure unless q3 reports success
      Match(if Join(fields.q1, fields.q2) == 0 && q3 != ACK_SUCCESS then ACK_FAIL else ACK_SUCCESS,
            Join(fields.q1, fields.q2))
    else Match(ACK_FAIL, returnUid)
  }

  /** `recognition_1vN(returnUid)` as written: its locals are uninitialised,
      so `stale` decides the result whenever no trusted acknowledgement
      arrives. `returnUid` is the caller's variable, left alone unless the
      type test passes. */
  function Recognition1vN(d: Driver, stale: AckFields, returnUid: Word): (r: UidReply)
    requires Valid(d)
    ensures Valid(r.driver)
    ensures r.driver.cmdBuffer == CommandFrame(0x0C, 0, 0, 0)
    ensures var a := SendCmd(d, 0x0C, 0, 0, 0, stale);
      Match(r.status, r.uid) == MatchOutcome(if Trusted(a) then FieldsOf(r.driver.ackBuffer) else stale, a.status, returnUid)
  {
    var a := SendCmd(d, 0x0C, 0x00, 0x00, 0x00, stale);
    var m := MatchOutcome(a.fields, a.status, returnUid);
    UidReply(m.status, m.uid, a.driver)
  }

  /** `recognition_1vN` with `ackType`, `q1`, `q2` initialised to zero. */
  function Recognition1vNZeroed(d: Driver, returnUid: Word): (r: UidReply)
    requires Valid(d)
    ensures Valid(r.driver)
    ensures r.status == ACK_SUCCESS ==>
      && SendCmd(d, 0x0C, 0, 0, 0, AckFields(0, 0, 0)).exit.Acknowledged?
      && ChecksumValid(r.driver.ackBuffer)
      && r.driver.ackBuffer[1] == 0x0C
      && r.uid == Join(r.driver.ackBuffer[2], r.driver.ackBuffer[3])
    ensures !SendCmd(d, 0x0C, 0, 0, 0, AckFields(0, 0, 0)).exit.Acknowledged? ==>
      r.status == ACK_FAIL && r.uid == returnUid
  {
    Recognition1vN(d, AckFields(0, 0, 0), returnUid)
  }

  /** The mapping of `stopAll` applied to the type and status `sendCmd` left
      in its locals. */
  function StopOutcome(ackType: Byte, q3: Byte): (r: Byte)
    ensures ackType == 0x0C ==> r == q3
    ensures ackType != 0x0C ==> (r == ACK_IDLE <==> ackType == 0xFE && q3 == ACK_FAIL)
    ensures ackType != 0x0C ==> r == ACK_IDLE || r == ACK_FAIL
  {
    if ackType == 0x0C then q3
    else if ackType == 0xFE && q3 == ACK_FAIL then ACK_IDLE
    else ACK_FAIL
  }

  /** `stopAll()` as written, with its uninitialised `ackType` as `stale`. */
  function StopAll(d: Driver, stale: AckFields): (r: Reply)
    requires Valid(d)
    ensures Valid(r.driver)
    ensures r.driver.cmdBuffer == CommandFrame(0xFE, 0, 0, 0)
    ensures var a := SendCmd(d, 0xFE, 0, 0, 0, stale);
      r.status == StopOutcome(if Trusted(a) then r.driver.ackBuffer[1] else stale.ackType, a.status)
  {
    var a := SendCmd(d, 0xFE, 0x00, 0x00, 0x00, stale);
    Reply(StopOutcome(a.fields.ackType, a.status), a.driver)
  }

  /** `stopAll` with `ackType` initialised to zero. */
  function StopAllZeroed(d: Driver): (r: Reply)
    requires Valid(d)
    ensures Valid(r.driver)
    ensures var b := r.driver.ackBuffer;
      r.status == ACK_IDLE ==>
      && SendCmd(d, 0xFE, 0, 0, 0, AckFields(0, 0, 0)).exit.Acknowledged?
      && ChecksumValid(b)
      && ((b[1] == 0xFE && b[4] == ACK_FAIL) || (b[1] == 0x0C && b[4] == ACK_IDLE))
    ensures !SendCmd(d, 0xFE, 0, 0, 0, AckFields(0, 0, 0)).exit.Acknowledged? ==> r.status == ACK_FAIL
  {
    StopAll(d, AckFields(0, 0, 0))
  }

  /** `getUserCount()`: the count is stored in the driver and returned. It is
      the joined fields of a trusted 0x09 acknowledgement carrying
      SFM_ACK_SUCCESS, and 0 otherwise. */
  function GetUserCount(d: Driver, stale: AckFields): (d': Driver)
    requires Valid(d)
    ensures Valid(d')
    ensures d'.cmdBuffer == CommandFrame(0x09, 0, 0, 0) && d'.uuid == d.uuid
    ensures var b := d'.ackBuffer;
      var counted := SendCmd(d, 0x09, 0, 0, 0, stale).exit.Acknowledged? && b[1] == 0x09 && b[4] == ACK_SUCCESS;
      d'.userCount == (if counted then Join(b[2], b[3]) else 0)
  {
    var a := SendCmd(d, 0x09, 0x00, 0x00, 0x00, stale);
    var count := if a.fields.ackType == 0x09 && a.status == ACK_SUCCESS then Join(a.fields.q1, a.fields.q2) else 0;
    a.driver.(userCount := count)
  }

  /** The identifier `getUuid` returns and the driver afterwards. */
  datatype Identified = Identified(uuid: string, driver: Driver)

  /** `getUuid()`: the 0x60 command, then, only if it succeeds, the data
      package, which is stored in the `uuid` member. If the command fails,
      the member keeps whatever it held. */
  function GetUuid(d: Driver, stale: AckFields, signedChar: bool): (r: Run<Identified>)
    requires Valid(d)
    ensures r.Returns? ==> Valid(r.value.driver)
    ensures r.Returns? && r.value.uuid != "" ==>
      && GetCmdReturn(d, stale, 0x60).status == ACK_SUCCESS
      && r.value.driver.uuid == r.value.uuid
      && UnHex(r.value.uuid).Some?
      && HexOf(UnHex(r.value.uuid).value) == r.value.uuid
    ensures GetCmdReturn(d, stale, 0x60).status != ACK_SUCCESS ==>
      r.Returns? && r.value.uuid == "" && r.value.driver.uuid == d.uuid
    ensures GetCmdReturn(d, stale, 0x60).status == ACK_SUCCESS && r.Returns? ==>
      r.value.driver.uuid == r.value.uuid
  {
    var g := GetCmdReturn(d, stale, 0x60);
    if g.status != ACK_SUCCESS then Returns(Identified("", g.driver))
    else
      match GetDataPackage(g.driver.serial, signedChar)
      case Returns(p) =>
        Returns(Identified(if p.status == ACK_SUCCESS then p.text else "",
                           g.driver.(uuid := p.text, serial := p.serial)))
      case Spins => Spins
      case ReadsOutOfBounds => ReadsOutOfBounds
  }

  /** Whether the module answers, and the driver afterwards. */
  datatype Connected = Connected(connected: bool, driver: Driver)

  /** Length of the identifier a module reports: nine bytes in hexadecimal. */
  const UUID_LENGTH: nat := 18

  /** `isConnected()` as written: it calls `getUuid` and tests the length of
      the `uuid` member, not of the string `getUuid` returned. */
  function IsConnected(d: Driver, stale: AckFields, signedChar: bool): (r: Run<Connected>)
    requires Valid(d)
    ensures r.Returns? ==> Valid(r.value.driver)
    ensures GetCmdReturn(d, stale, 0x60).status != ACK_SUCCESS ==>
      r.Returns? && r.value.connected == (|d.uuid| == UUID_LENGTH)
    ensures r.Returns? ==> (r.value.connected <==> |r.value.driver.uuid| == UUID_LENGTH)
  {
    match GetUuid(d, stale, signedChar)
    case Returns(u) => Returns(Connected(|u.driver.uuid| == UUID_LENGTH, u.driver))
    case Spins => Spins
    case ReadsOutOfBounds => ReadsOutOfBounds
  }

  /** `isConnected` testing the string `getUuid` returns: connected only
      when the 0x60 command succeeded and a nine-byte package followed. */
  function IsConnectedChecked(d: Driver, stale: AckFields, signedChar: bool): (r: Run<Connected>)
    requires Valid(d)
    ensures r.Returns? ==> Valid(r.value.driver)
    ensures r.Returns? && r.value.connected ==>
      && GetCmdReturn(d, stale, 0x60).status == ACK_SUCCESS
      && UnHex(r.value.driver.uuid).Some?
      && |UnHex(r.value.driver.uuid).value| == UUID_LENGTH / 2
    ensures GetCmdReturn(d, stale, 0x60).status != ACK_SUCCESS ==> r.Returns? && !r.value.connected
  {
    match GetUuid(d, stale, signedChar)
    case Returns(u) =>
      if |u.uuid| == UUID_LENGTH then
        HexRoundTrip(UnHex(u.uuid).value);
        Returns(Connected(true, u.driver))
      else Returns(Connected(false, u.driver))
    case Spins => Spins
    case ReadsOutOfBounds => ReadsOutOfBounds
  }

  /** A trusted 0x09 acknowledgement with status SFM_ACK_SUCCESS, arriving
      whole before the budget runs out, sets the count to its two fields
      joined, high byte first. */
  lemma {:induction false} UserCountReported(d: Driver, stale: AckFields, m: nat, q1: Byte, q2: Byte, later: seq<seq<Byte>>)
    requires Valid(d) && m < SERIAL_TIMEOUT
    requires d.serial.pending == Silence(m) + [CommandFrame(0x09, q1, q2, ACK_SUCCESS)] + later
    ensures GetUserCount(d, stale).userCount == Join(q1, q2)
  {
    var ack := CommandFrame(0x09, q1, q2, ACK_SUCCESS);
    assert [] + ack + [] == ack;
    ExchangeSkipsGarbage(d, 0x09, 0, 0, 0, stale, m, [], ack, [], later);
  }

  /** A trusted 0x09 reply with q1 = 0, q2 = 5 and status SFM_ACK_SUCCESS
      counts five users. */
  lemma {:induction false} UserCountExample(d: Driver, stale: AckFields, m: nat, later: seq<seq<Byte>>)
    requires Valid(d) && m < SERIAL_TIMEOUT
    requires d.serial.pending == Silence(m) + [CommandFrame(0x09, 0, 5, ACK_SUCCESS)] + later
    ensures GetUserCount(d, stale).userCount == 5
  {
    UserCountReported(d, stale, m, 0, 5, later);
  }

  /** `setRingColor(c)` with its default arguments sends the colour twice
      and a period of 50, that is 500 ms. */
  lemma RingColorDefaults(d: Driver, stale: AckFields, color: Byte)
    requires Valid(d)
    ensures SetRingColor(d, stale, color).driver.cmdBuffer == CommandFrame(0xC3, color, color, 50)
  {
    var f := SetRingColor(d, stale, color).driver.cmdBuffer;
    assert f[2] == color && f[3] == color && f[4] == 50;
    assert f == CommandFrame(0xC3, color, color, 50);
  }

  /** `register_3c3r_1st()` with its default uid sends uid 0 and the default role. */
  lemma RegisterDefaults(d: Driver, stale: AckFields)
    requires Valid(d)
    ensures Register1st(d, stale).driver.cmdBuffer == CommandFrame(0x01, 0, 0, DEFAULT_USERROLE)
  {
    var f := Register1st(d, stale).driver.cmdBuffer;
    assert Join(f[2], f[3]) == 0;
    assert f[2] == 0 && f[3] == 0;
  }

  /** The 0x60 command succeeds on an acknowledgement of type 0x60 with
      status SFM_ACK_SUCCESS, and what follows the frame stays buffered. */
  lemma {:induction false} UuidAcknowledged(d: Driver, stale: AckFields, m: nat, q1: Byte, q2: Byte, rest: seq<Byte>, later: seq<seq<Byte>>)
    returns (g: Reply)
    requires Valid(d) && m < SERIAL_TIMEOUT
    requires d.serial.pending == Silence(m) + [CommandFrame(0x60, q1, q2, ACK_SUCCESS) + rest] + later
    ensures g == GetCmdReturn(d, stale, 0x60)
    ensures g.status == ACK_SUCCESS && g.driver.serial.rx == rest
  {
    var ack := CommandFrame(0x60, q1, q2, ACK_SUCCESS);
    assert [] + ack + rest == ack + rest;
    EchoGuard(d, stale, 0x60, 0, 0, 0, m, [], ack, rest, later);
    g := GetCmdReturn(d, stale, 0x60);
  }

  /** A 0x60 acknowledgement carrying SFM_ACK_SUCCESS followed by a package
      between two markers: `getUuid` returns the package in hexadecimal,
      stores it in the driver and leaves the closing marker and what
      follows it buffered. */
  lemma {:induction false} UuidReceived(d: Driver, stale: AckFields, signedChar: bool, q1: Byte, q2: Byte,
                     m: nat, payload: seq<Byte>, rest: seq<Byte>, later: seq<seq<Byte>>)
    requires Valid(d) && m < SERIAL_TIMEOUT
    requires MARKER !in payload && |payload| > 0
    requires signedChar ==> AllBelow80(payload)
    requires d.serial.pending == Silence(m) + [CommandFrame(0x60, q1, q2, ACK_SUCCESS) + ([MARKER] + payload + [MARKER] + rest)] + later
    ensures var r := GetUuid(d, stale, signedChar);
      && r.Returns?
      && r.value.uuid == HexOf(payload)
      && r.value.driver.uuid == HexOf(payload)
      && r.value.driver.serial.rx == [MARKER] + rest
      && |r.value.uuid| == 2 * |payload|
      && UnHex(r.value.uuid) == Some(payload)
  {
    var g := UuidAcknowledged(d, stale, m, q1, q2, [MARKER] + payload + [MARKER] + rest, later);
    FrontPackageDecoded(g.driver.serial, signedChar, payload, rest);
    var p := Package(ACK_SUCCESS, HexOf(payload), g.driver.serial.(rx := [MARKER] + rest));
    assert GetDataPackage(g.driver.serial, signedChar) == Returns(p);
    assert GetUuid(d, stale, signedChar) == Returns(Identified(p.text, g.driver.(uuid := p.text, serial := p.serial)));
  }

  /** A nine-byte identifier makes the module count as connected. */
  lemma {:induction false} NineByteUuidConnects(d: Driver, stale: AckFields, signedChar: bool, q1: Byte, q2: Byte,
                             m: nat, payload: seq<Byte>, rest: seq<Byte>, later: seq<seq<Byte>>)
    requires Valid(d) && m < SERIAL_TIMEOUT
    requires MARKER !in payload && 2 * |payload| == UUID_LENGTH
    requires signedChar ==> AllBelow80(payload)
    requires d.serial.pending == Silence(m) + [CommandFrame(0x60, q1, q2, ACK_SUCCESS) + ([MARKER] + payload + [MARKER] + rest)] + later
    ensures IsConnected(d, stale, signedChar).Returns? && IsConnected(d, stale, signedChar).value.connected
    ensures IsConnectedChecked(d, stale, signedChar).Returns? && IsConnectedChecked(d, stale, signedChar).value.connected
  {
    UuidReceived(d, stale, signedChar, q1, q2, m, payload, rest, later);
    var r := GetUuid(d, stale, signedChar);
    assert r.Returns?;
    assert |r.value.driver.uuid| == 2 * |payload|;
    assert |r.value.driver.uuid| == UUID_LENGTH;
  }

  /** As written, `isConnected` on a silent module reports the identifier
      an earlier call stored; testing the returned string reports it absent. */
  lemma SilentModuleStillConnected(d: Driver, stale: AckFields, signedChar: bool)
    requires Valid(d) && |d.uuid| == UUID_LENGTH
    requires Scheduled(d.serial.pending) < 8
    ensures IsConnected(d, stale, signedChar).Returns? && IsConnected(d, stale, signedChar).value.connected
    ensures IsConnectedChecked(d, stale, signedChar).Returns? && !IsConnectedChecked(d, stale, signedChar).value.connected
  {
    SilentDeviceTimesOut(d, 0x60, 0, 0, 0, stale);
  }

  /** As written, `recognition_1vN` on a silent module reports a match for
      uid 1 when its uninitialised locals hold type 0x0C and fields 0, 1;
      with zeroed locals it reports a failure and leaves the uid alone. */
  lemma SilentModuleMatches(d: Driver, returnUid: Word)
    requires Valid(d)
    requires Scheduled(d.serial.pending) < 8
    ensures var r := Recognition1vN(d, AckFields(0x0C, 0, 1), returnUid);
      r.status == ACK_SUCCESS && r.uid == 1
    ensures var r := Recognition1vNZeroed(d, returnUid);
      r.status == ACK_FAIL && r.uid == returnUid
  {
    SilentDeviceTimesOut(d, 0x0C, 0, 0, 0, AckFields(0x0C, 0, 1));
    SilentDeviceTimesOut(d, 0x0C, 0, 0, 0, AckFields(0, 0, 0));
  }

  /** As written, `stopAll` reports the module idle when a reply fails its
      checksum and the uninitialised `ackType` happens to hold 0xFE; with
      a zeroed `ackType` it reports a failure. */
  lemma {:induction false} CorruptReplyReportsIdle(d: Driver, stale: AckFields, m: nat, frame: seq<Byte>, later: seq<seq<Byte>>)
    requires Valid(d) && m < SERIAL_TIMEOUT
    requires stale.ackType == 0xFE
    requires |frame| == FRAME_SIZE && frame[0] == MARKER && !ChecksumValid(frame)
    requires d.serial.pending == Silence(m) + [frame] + later
    ensures StopAll(d, stale).status == ACK_IDLE
    ensures StopAllZeroed(d).status == ACK_FAIL
  {
    assert [] + frame + [] == frame;
    CorruptFrameRejected(d, 0xFE, 0, 0, 0, stale, m, [], frame, [], later);
    CorruptFrameRejected(d, 0xFE, 0, 0, 0, AckFields(0, 0, 0), m, [], frame, [], later);
  }
}
