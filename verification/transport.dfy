/** One request/acknowledgement exchange (`sendCmd`): flush stale input,
    write the command frame, poll for at least 8 bytes, trim up to the
    marker, read 8 bytes and check their checksum.

    The two counted loops of the source are written as recursion on the
    counter, with the `unsigned int` post-decrement reproduced: the poll
    runs SERIAL_TIMEOUT times, and the trim loop leaves its counter at 0
    only when it finds the marker after exactly SERIAL_TIMEOUT discards; when
    it gives up, the counter wraps to UINT_MAX instead.
 */
module Transport {
  import opened Protocol
  import opened Frame
  import opened Channel

  /** The state of an `SFM_Module` object the core touches: the two frame
      buffers, the cached identifier and user count, and the serial link. */
  datatype Driver = Driver(cmdBuffer: seq<Byte>, ackBuffer: seq<Byte>, uuid: string, userCount: Word, serial: Serial)

  predicate Valid(d: Driver) {
    CmdBufferInv(d.cmdBuffer) && |d.ackBuffer| == FRAME_SIZE
  }

  /** The constructor: buffers zeroed, the two markers written into the
      command buffer, no identifier, no users counted. */
  function NewDriver(serial: Serial): (d: Driver)
    ensures Valid(d)
    ensures forall i :: 1 <= i < 7 ==> d.cmdBuffer[i] == 0
    ensures d.uuid == "" && d.userCount == 0 && d.serial == serial
  {
    ConstructedCmdBufferInv();
    Driver(CONSTRUCTED_CMD_BUFFER, [0, 0, 0, 0, 0, 0, 0, 0], "", 0, serial)
  }

  /** Which `return` of `sendCmd` was taken. */
  datatype Exit =
    | Acknowledged       // checksum matched
    | ChecksumMismatch   // 8 bytes read, checksum wrong
    | ResyncTimeout      // trim counter ended at zero
    | NoReply            // poll budget used up

  /** What `sendCmd` hands back: its return value, the three reference
      out-parameters, and the driver afterwards. */
  datatype Ack = Ack(status: Byte, fields: AckFields, driver: Driver, exit: Exit)

  /** How the result of an exchange relates to the acknowledgement buffer
      and to the out-parameters' values before the call (`stale`). */
  predicate ExitAgrees(r: Ack, stale: AckFields) {
    && |r.driver.ackBuffer| == FRAME_SIZE
    && (r.exit.Acknowledged? ==>
          && ChecksumValid(r.driver.ackBuffer)
          && r.status == r.driver.ackBuffer[4]
          && r.fields == FieldsOf(r.driver.ackBuffer))
    && (r.exit.ChecksumMismatch? ==> !ChecksumValid(r.driver.ackBuffer) && r.status == ACK_FAIL)
    && (r.exit.ResyncTimeout? || r.exit.NoReply? ==> r.status == ACK_SERIALTIMEOUT)
    && (!r.exit.Acknowledged? ==> r.fields == stale && r.driver.serial.rx == [])
  }

  /** Index of the first marker in `rx`, or |rx| when there is none. */
  function FirstMarker(rx: seq<Byte>): (k: nat)
    ensures k <= |rx|
    ensures k < |rx| ==> rx[k] == MARKER
    ensures forall j :: 0 <= j < k ==> rx[j] != MARKER
  {
    if |rx| == 0 then 0 else if rx[0] == MARKER then 0 else 1 + FirstMarker(rx[1..])
  }

  lemma {:induction false} FirstMarkerAfter(garbage: seq<Byte>, rest: seq<Byte>)
    requires MARKER !in garbage
    requires |rest| > 0 && rest[0] == MARKER
    ensures FirstMarker(garbage + rest) == |garbage|
  {
    if |garbage| > 0 {
      assert garbage[0] in garbage;
      assert (garbage + rest)[1..] == garbage[1..] + rest;
      assert MARKER !in garbage[1..] by {
        forall b | b in garbage[1..] ensures b != MARKER {
          assert b in garbage;
        }
      }
      FirstMarkerAfter(garbage[1..], rest);
    }
  }

  lemma {:induction false} FirstMarkerAbsent(rx: seq<Byte>)
    requires MARKER !in rx
    ensures FirstMarker(rx) == |rx|
  {
    if |rx| > 0 {
      assert rx[0] in rx;
      assert MARKER !in rx[1..] by {
        forall b | b in rx[1..] ensures b != MARKER {
          assert b in rx;
        }
      }
      FirstMarkerAbsent(rx[1..]);
    }
  }

  datatype Trimmed = Trimmed(rx: seq<Byte>, counter: nat)

  /** The trim loop of `sendCmd`: bytes are read and dropped while the
      next one is not the marker and budget remains. When a marker lies
      within the budget, the bytes before it are dropped and the counter
      keeps the unspent budget. Otherwise min(budget, |rx|) bytes are
      dropped (reads of an empty buffer drop nothing) and the counter
      wraps. */
  function Trim(rx: seq<Byte>, trimTimer: nat): (r: Trimmed)
    requires trimTimer <= UINT_MAX
    ensures var k := FirstMarker(rx);
      k < |rx| && k <= trimTimer ==> r == Trimmed(rx[k..], trimTimer - k)
    ensures var k := FirstMarker(rx);
      !(k < |rx| && k <= trimTimer) ==> r == Trimmed(rx[Min(trimTimer, |rx|)..], UINT_MAX)
    ensures IsSuffix(r.rx, rx)
    decreases trimTimer
  {
    if Peek(rx) == MARKER then Trimmed(rx, trimTimer)
    else if trimTimer == 0 then Trimmed(rx, PostDecrement(trimTimer))
    else
      var r := Trim(Consume(rx), PostDecrement(trimTimer));
      ConsumeSuffix(rx);
      IsSuffixTrans(r.rx, Consume(rx), rx);
      r
  }

  /** Reading 8 buffered bytes into the acknowledgement buffer and checking
      them: a matching checksum returns byte 4 and writes the three
      out-parameters; otherwise the exchange fails and flushes its input. */
  function ReadAck(d: Driver, rx: seq<Byte>, stale: AckFields): (a: Ack)
    requires Valid(d) && |rx| >= FRAME_SIZE
    ensures Valid(a.driver) && ExitAgrees(a, stale)
    ensures a.exit.Acknowledged? || a.exit.ChecksumMismatch?
    ensures a.exit.Acknowledged? <==> ChecksumValid(rx[..FRAME_SIZE])
    ensures a.driver.ackBuffer == rx[..FRAME_SIZE]
    ensures a.exit.Acknowledged? ==> a.driver.serial.rx == rx[FRAME_SIZE..]
    ensures a.driver.cmdBuffer == d.cmdBuffer && a.driver.uuid == d.uuid && a.driver.userCount == d.userCount
    ensures a.driver.serial.tx == d.serial.tx && a.driver.serial.pending == d.serial.pending
  {
    var frame := rx[..FRAME_SIZE];
    var d' := d.(ackBuffer := frame, serial := d.serial.(rx := rx[FRAME_SIZE..]));
    if frame[6] == Checksum(frame) then
      Ack(frame[4], FieldsOf(frame), d', Acknowledged)
    else
      Ack(ACK_FAIL, stale, d'.(serial := Flush(d'.serial)), ChecksumMismatch)
  }

  /** How one round of the polling loop ends: with a `return`, or by going
      on to the `delay()` with the driver as the round left it. */
  datatype Step = Done(ack: Ack) | Continue(next: Driver)

  /** What a round does with at least 8 bytes buffered: trim to the marker
      and, unless the trim counter ended at 0 or fewer than 8 bytes remain,
      read 8 bytes and check them. */
  function Resync(d: Driver, stale: AckFields): (s: Step)
    requires Valid(d) && |d.serial.rx| >= 8
    ensures s.Done? ==>
      && Valid(s.ack.driver)
      && ExitAgrees(s.ack, stale)
      && !s.ack.exit.NoReply?
      && s.ack.driver.cmdBuffer == d.cmdBuffer
      && s.ack.driver.serial.tx == d.serial.tx
      && s.ack.driver.serial.pending == d.serial.pending
      && s.ack.driver.uuid == d.uuid && s.ack.driver.userCount == d.userCount
      && (s.ack.exit.ResyncTimeout? ==> s.ack.driver.ackBuffer == d.ackBuffer)
    ensures s.Continue? ==>
      && s.next.cmdBuffer == d.cmdBuffer && s.next.ackBuffer == d.ackBuffer
      && s.next.uuid == d.uuid && s.next.userCount == d.userCount
      && s.next.serial.pending == d.serial.pending && s.next.serial.tx == d.serial.tx
      && |s.next.serial.rx| < 8
      && IsSuffix(s.next.serial.rx, d.serial.rx)
  {
    var trimmed := Trim(d.serial.rx, SERIAL_TIMEOUT);
    if trimmed.counter == 0 then
      Done(Ack(ACK_SERIALTIMEOUT, stale, d.(serial := Flush(d.serial)), ResyncTimeout))
    else if |trimmed.rx| >= 8 then
      Done(ReadAck(d, trimmed.rx, stale))
    else
      Continue(d.(serial := d.serial.(rx := trimmed.rx)))
  }

  /** One iteration of the timed polling loop of `sendCmd`, without the delay:
      nothing happens until 8 bytes are buffered. */
  function Round(d: Driver, stale: AckFields): (s: Step)
    requires Valid(d)
    ensures s.Done? ==>
      && Valid(s.ack.driver)
      && ExitAgrees(s.ack, stale)
      && !s.ack.exit.NoReply?
      && s.ack.driver.cmdBuffer == d.cmdBuffer
      && s.ack.driver.serial.tx == d.serial.tx
      && s.ack.driver.serial.pending == d.serial.pending
      && s.ack.driver.uuid == d.uuid && s.ack.driver.userCount == d.userCount
      && (s.ack.exit.ResyncTimeout? ==> s.ack.driver.ackBuffer == d.ackBuffer)
    ensures s.Continue? ==>
      && s.next.cmdBuffer == d.cmdBuffer && s.next.ackBuffer == d.ackBuffer
      && s.next.uuid == d.uuid && s.next.userCount == d.userCount
      && s.next.serial.pending == d.serial.pending && s.next.serial.tx == d.serial.tx
      && |s.next.serial.rx| < 8
      && IsSuffix(s.next.serial.rx, d.serial.rx)
    ensures |d.serial.rx| < 8 ==> s == Continue(d)
  {
    if Available(d.serial) >= 8 then Resync(d, stale) else Continue(d)
  }

  /** Once the trim loop has left at least 8 bytes and a nonzero counter,
      the round ends by reading those bytes. */
  lemma RoundAfterTrim(d: Driver, stale: AckFields, rx: seq<Byte>, counter: nat)
    requires Valid(d) && |d.serial.rx| >= 8
    requires Trim(d.serial.rx, SERIAL_TIMEOUT) == Trimmed(rx, counter)
    requires counter != 0 && |rx| >= FRAME_SIZE
    ensures Round(d, stale) == Done(ReadAck(d, rx, stale))
  {
  }

  /** The timed polling loop of `sendCmd`, one millisecond per round,
      followed by the final flush, with `timer` the budget still to run. */
  function Poll(d: Driver, timer: nat, stale: AckFields): (r: Ack)
    requires Valid(d)
    ensures Valid(r.driver)
    ensures ExitAgrees(r, stale)
    ensures r.driver.cmdBuffer == d.cmdBuffer && r.driver.serial.tx == d.serial.tx
    ensures r.driver.uuid == d.uuid && r.driver.userCount == d.userCount
    ensures r.exit.ResyncTimeout? || r.exit.NoReply? ==> r.driver.ackBuffer == d.ackBuffer
    ensures IsSuffix(r.driver.serial.pending, d.serial.pending)
    decreases timer
  {
    if timer == 0 then
      Ack(ACK_SERIALTIMEOUT, stale, d.(serial := Flush(d.serial)), NoReply)
    else
      match Round(d, stale)
      case Done(ack) => ack
      case Continue(next) =>
        var r := Poll(next.(serial := Tick(next.serial)), timer - 1, stale);
        TickSuffix(next.serial);
        IsSuffixTrans(r.driver.serial.pending, Tick(next.serial).pending, d.serial.pending);
        r
  }

  /** The driver state at the start of the poll: input flushed, the frame
      written, and one tick for the transmission to complete. */
  function Sent(d: Driver, cmdType: Byte, p1: Byte, p2: Byte, p3: Byte): (d': Driver)
    requires Valid(d)
    ensures Valid(d')
    ensures d'.cmdBuffer == CommandFrame(cmdType, p1, p2, p3)
    ensures d'.serial == Tick(Write(Flush(d.serial), CommandFrame(cmdType, p1, p2, p3)))
    ensures d'.ackBuffer == d.ackBuffer && d'.uuid == d.uuid && d'.userCount == d.userCount
  {
    var frame := FillCommand(d.cmdBuffer, cmdType, p1, p2, p3);
    ConstructedCmdBufferInv();
    FillCommandForgetsHistory(d.cmdBuffer, CONSTRUCTED_CMD_BUFFER, cmdType, p1, p2, p3);
    d.(cmdBuffer := frame, serial := Tick(Write(Flush(d.serial), frame)))
  }

  /** `sendCmd(cmdType, p1, p2, p3, ackType, q1, q2)`; `stale` holds the
      out-parameters' values before the call. */
  function SendCmd(d: Driver, cmdType: Byte, p1: Byte, p2: Byte, p3: Byte, stale: AckFields): (r: Ack)
    requires Valid(d)
    ensures Valid(r.driver)
    ensures ExitAgrees(r, stale)
    ensures r.driver.cmdBuffer == CommandFrame(cmdType, p1, p2, p3)
    ensures r.driver.serial.tx == d.serial.tx + CommandFrame(cmdType, p1, p2, p3)
    ensures r.driver.uuid == d.uuid && r.driver.userCount == d.userCount
    ensures r.exit.ResyncTimeout? || r.exit.NoReply? ==> r.driver.ackBuffer == d.ackBuffer
    ensures IsSuffix(r.driver.serial.pending, d.serial.pending)
  {
    var d' := Sent(d, cmdType, p1, p2, p3);
    var r := Poll(d', SERIAL_TIMEOUT, stale);
    TickSuffix(Write(Flush(d.serial), CommandFrame(cmdType, p1, p2, p3)));
    IsSuffixTrans(r.driver.serial.pending, d'.serial.pending, d.serial.pending);
    r
  }

  /** The trim loop drops exactly the bytes before a marker that lies
      within its budget, and keeps the unspent budget. */
  lemma TrimToMarker(garbage: seq<Byte>, tail: seq<Byte>, t: nat)
    requires MARKER !in garbage && |tail| > 0 && tail[0] == MARKER
    requires |garbage| <= t <= UINT_MAX
    ensures Trim(garbage + tail, t) == Trimmed(tail, t - |garbage|)
  {
    FirstMarkerAfter(garbage, tail);
    assert (garbage + tail)[|garbage|..] == tail;
  }

  /** Without a marker the trim loop drops as many bytes as its budget
      allows and its counter wraps. */
  lemma TrimWithoutMarker(rx: seq<Byte>, t: nat)
    requires MARKER !in rx && t <= UINT_MAX
    ensures Trim(rx, t) == Trimmed(rx[Min(t, |rx|)..], UINT_MAX)
  {
    FirstMarkerAbsent(rx);
  }

  /** A round that finds 8 bytes at a marker within the trim budget reads
      exactly those bytes: it accepts them when their checksum matches and
      otherwise fails and flushes. */
  lemma RoundReadsFrame(d: Driver, stale: AckFields, garbage: seq<Byte>, frame: seq<Byte>, rest: seq<Byte>)
    requires Valid(d)
    requires MARKER !in garbage && |garbage| < SERIAL_TIMEOUT
    requires |frame| == FRAME_SIZE && frame[0] == MARKER
    requires d.serial.rx == garbage + frame + rest
    ensures var d' := d.(ackBuffer := frame, serial := d.serial.(rx := rest));
      Round(d, stale) ==
        if ChecksumValid(frame) then Done(Ack(frame[4], FieldsOf(frame), d', Acknowledged))
        else Done(Ack(ACK_FAIL, stale, d'.(serial := d'.serial.(rx := [])), ChecksumMismatch))
  {
    assert garbage + frame + rest == garbage + (frame + rest);
    TrimToMarker(garbage, frame + rest, SERIAL_TIMEOUT);
    RoundAfterTrim(d, stale, frame + rest, SERIAL_TIMEOUT - |garbage|);
    assert (frame + rest)[..FRAME_SIZE] == frame;
    assert (frame + rest)[FRAME_SIZE..] == rest;
  }

  /** The poll starts with exactly what arrived while the frame was sent. */
  lemma SentReceives(d: Driver, cmdType: Byte, p1: Byte, p2: Byte, p3: Byte, arrived: seq<Byte>, later: seq<seq<Byte>>)
    requires Valid(d)
    requires d.serial.pending == [arrived] + later
    ensures Sent(d, cmdType, p1, p2, p3).serial.rx == arrived
    ensures Sent(d, cmdType, p1, p2, p3).serial.pending == later
  {
    assert [] + arrived == arrived;
  }

  /** `m` ticks in which nothing arrives. */
  function Silence(m: nat): seq<seq<Byte>>
  {
    seq(m, _ => [])
  }

  /** The first entry of a schedule that starts with `m` silent ticks. */
  lemma SilenceStep(m: nat, arrival: seq<Byte>, later: seq<seq<Byte>>)
    ensures m == 0 ==> Silence(m) + [arrival] + later == [arrival] + later
    ensures m > 0 ==> Silence(m) + [arrival] + later == [[]] + (Silence(m - 1) + [arrival] + later)
  {
    var p := Silence(m) + [arrival] + later;
    if m == 0 {
      assert p == [arrival] + later;
    } else {
      assert p == [[]] + (Silence(m - 1) + [arrival] + later);
    }
  }

  /** How a poll ends that reads `frame` from the front of the buffer:
      exactly its 8 bytes are consumed into the acknowledgement buffer;
      with a matching checksum the exchange is acknowledged and what
      follows stays buffered, otherwise it fails, flushes and leaves the
      out-parameters unwritten. `later` is still to arrive. */
  predicate FrameOutcome(r: Ack, stale: AckFields, frame: seq<Byte>, rest: seq<Byte>, later: seq<seq<Byte>>)
    requires |frame| == FRAME_SIZE
  {
    && r.driver.ackBuffer == frame
    && r.driver.serial.pending == later
    && (ChecksumValid(frame) ==>
          r.exit == Acknowledged && r.status == frame[4] && r.fields == FieldsOf(frame) && r.driver.serial.rx == rest)
    && (!ChecksumValid(frame) ==>
          r.exit == ChecksumMismatch && r.status == ACK_FAIL && r.fields == stale && r.driver.serial.rx == [])
  }

  /** A poll with budget left whose buffer holds a frame behind fewer than
      SERIAL_TIMEOUT non-marker bytes ends in its first round, reading it. */
  lemma PollReadsFrame(d: Driver, timer: nat, stale: AckFields,
                       garbage: seq<Byte>, frame: seq<Byte>, rest: seq<Byte>, later: seq<seq<Byte>>)
    requires Valid(d) && timer > 0
    requires MARKER !in garbage && |garbage| < SERIAL_TIMEOUT
    requires |frame| == FRAME_SIZE && frame[0] == MARKER
    requires d.serial.rx == garbage + frame + rest && d.serial.pending == later
    ensures FrameOutcome(Poll(d, timer, stale), stale, frame, rest, later)
  {
    RoundReadsFrame(d, stale, garbage, frame, rest);
    PollStopsAt(d, timer, stale);
  }

  /** With an empty buffer and the frame due at the next tick, the poll
      waits one round and reads it in the round after. */
  lemma PollAwaitsFrame(d: Driver, timer: nat, stale: AckFields,
                        garbage: seq<Byte>, frame: seq<Byte>, rest: seq<Byte>, later: seq<seq<Byte>>)
    requires Valid(d) && 1 < timer
    requires MARKER !in garbage && |garbage| < SERIAL_TIMEOUT
    requires |frame| == FRAME_SIZE && frame[0] == MARKER
    requires d.serial.rx == [] && d.serial.pending == [garbage + frame + rest] + later
    ensures FrameOutcome(Poll(d, timer, stale), stale, frame, rest, later)
  {
    var reply := garbage + frame + rest;
    var d' := d.(serial := Tick(d.serial));
    PollWaits(d, timer, stale);
    assert [] + reply == reply;
    PollReadsFrame(d', timer - 1, stale, garbage, frame, rest, later);
    assert FrameOutcome(Poll(d', timer - 1, stale), stale, frame, rest, later);
  }

  /** A tick on an empty buffer with silent ticks ahead brings nothing. */
  lemma {:induction false} SilentTick(s: Serial, m: nat, reply: seq<Byte>, later: seq<seq<Byte>>)
    requires s.rx == [] && s.pending == Silence(m) + [reply] + later && m > 0
    ensures Tick(s) == Serial([], Silence(m - 1) + [reply] + later, s.tx)
  {
    SilenceStep(m, reply, later);
    assert ([[]] + (Silence(m - 1) + [reply] + later))[1..] == Silence(m - 1) + [reply] + later;
    assert s.rx + [] == [];
  }

  /** An outcome the poll reaches after one idle round is the outcome of
      the whole poll. */
  lemma PollWaitsOn(d: Driver, timer: nat, stale: AckFields, frame: seq<Byte>, rest: seq<Byte>, later: seq<seq<Byte>>)
    requires Valid(d) && |d.serial.rx| < 8 && timer > 0 && |frame| == FRAME_SIZE
    requires FrameOutcome(Poll(d.(serial := Tick(d.serial)), timer - 1, stale), stale, frame, rest, later)
    ensures FrameOutcome(Poll(d, timer, stale), stale, frame, rest, later)
  {
    PollWaits(d, timer, stale);
  }

  /** With an empty buffer and `m` silent ticks before the frame arrives,
      the poll waits through them, one round and one tick each, and reads
      the frame in the round after its tick, provided budget is left for
      that round. */
  lemma {:induction false} PollMeetsFrame(d: Driver, timer: nat, stale: AckFields, m: nat,
                                          garbage: seq<Byte>, frame: seq<Byte>, rest: seq<Byte>, later: seq<seq<Byte>>)
    requires Valid(d) && m + 1 < timer
    requires MARKER !in garbage && |garbage| < SERIAL_TIMEOUT
    requires |frame| == FRAME_SIZE && frame[0] == MARKER
    requires d.serial.rx == [] && d.serial.pending == Silence(m) + [garbage + frame + rest] + later
    ensures FrameOutcome(Poll(d, timer, stale), stale, frame, rest, later)
    decreases m
  {
    if m == 0 {
      assert Silence(m) + [garbage + frame + rest] + later == [garbage + frame + rest] + later;
      PollAwaitsFrame(d, timer, stale, garbage, frame, rest, later);
    } else {
      SilentTick(d.serial, m, garbage + frame + rest, later);
      PollMeetsFrame(d.(serial := Tick(d.serial)), timer - 1, stale, m - 1, garbage, frame, rest, later);
      PollWaitsOn(d, timer, stale, frame, rest, later);
    }
  }

  /** A frame that arrives whole, `m` < SERIAL_TIMEOUT ticks after the
      command was sent (0: during the transmission) and behind fewer than
      SERIAL_TIMEOUT non-marker bytes, is read in the round after its tick. */
  lemma {:induction false} ExchangeReadsFrame(d: Driver, cmdType: Byte, p1: Byte, p2: Byte, p3: Byte, stale: AckFields, m: nat,
                           garbage: seq<Byte>, frame: seq<Byte>, rest: seq<Byte>, later: seq<seq<Byte>>)
    requires Valid(d) && m < SERIAL_TIMEOUT
    requires MARKER !in garbage && |garbage| < SERIAL_TIMEOUT
    requires |frame| == FRAME_SIZE && frame[0] == MARKER
    requires d.serial.pending == Silence(m) + [garbage + frame + rest] + later
    ensures FrameOutcome(SendCmd(d, cmdType, p1, p2, p3, stale), stale, frame, rest, later)
  {
    var reply := garbage + frame + rest;
    if m == 0 {
      assert Silence(m) + [reply] + later == [reply] + later;
      SentReceives(d, cmdType, p1, p2, p3, reply, later);
      PollReadsFrame(Sent(d, cmdType, p1, p2, p3), SERIAL_TIMEOUT, stale, garbage, frame, rest, later);
    } else {
      LateFrameRead(d, cmdType, p1, p2, p3, stale, m, garbage, frame, rest, later);
    }
  }

  /** ExchangeReadsFrame when the transmission's tick brings nothing. */
  lemma {:induction false} LateFrameRead(d: Driver, cmdType: Byte, p1: Byte, p2: Byte, p3: Byte, stale: AckFields, m: nat,
                      garbage: seq<Byte>, frame: seq<Byte>, rest: seq<Byte>, later: seq<seq<Byte>>)
    requires Valid(d) && 0 < m < SERIAL_TIMEOUT
    requires MARKER !in garbage && |garbage| < SERIAL_TIMEOUT
    requires |frame| == FRAME_SIZE && frame[0] == MARKER
    requires d.serial.pending == Silence(m) + [garbage + frame + rest] + later
    ensures FrameOutcome(SendCmd(d, cmdType, p1, p2, p3, stale), stale, frame, rest, later)
  {
    SilenceStep(m, garbage + frame + rest, later);
    SentReceives(d, cmdType, p1, p2, p3, [], Silence(m - 1) + [garbage + frame + rest] + later);
    PollMeetsFrame(Sent(d, cmdType, p1, p2, p3), SERIAL_TIMEOUT, stale, m - 1, garbage, frame, rest, later);
  }

  /** A trusted frame that arrives whole, `m` < SERIAL_TIMEOUT ticks after
      the command was sent and behind fewer than SERIAL_TIMEOUT non-marker
      bytes, is found and decoded; exactly its 8 bytes are consumed and
      everything after it stays buffered. */
  lemma {:induction false} ExchangeSkipsGarbage(d: Driver, cmdType: Byte, p1: Byte, p2: Byte, p3: Byte, stale: AckFields, m: nat,
                             garbage: seq<Byte>, ack: seq<Byte>, rest: seq<Byte>, later: seq<seq<Byte>>)
    requires Valid(d) && m < SERIAL_TIMEOUT
    requires MARKER !in garbage && |garbage| < SERIAL_TIMEOUT
    requires ChecksumValid(ack) && ack[0] == MARKER
    requires d.serial.pending == Silence(m) + [garbage + ack + rest] + later
    ensures var r := SendCmd(d, cmdType, p1, p2, p3, stale);
      && r.exit == Acknowledged
      && r.status == ack[4]
      && r.fields == FieldsOf(ack)
      && r.driver.ackBuffer == ack
      && r.driver.serial.rx == rest
      && r.driver.serial.pending == later
  {
    ExchangeReadsFrame(d, cmdType, p1, p2, p3, stale, m, garbage, ack, rest, later);
  }

  /** Eight bytes from the marker on whose checksum does not match, arriving
      whole `m` < SERIAL_TIMEOUT ticks after the command was sent, are
      consumed and rejected: the exchange fails, flushes the input and
      leaves the out-parameters unwritten. */
  lemma {:induction false} CorruptFrameRejected(d: Driver, cmdType: Byte, p1: Byte, p2: Byte, p3: Byte, stale: AckFields, m: nat,
                             garbage: seq<Byte>, frame: seq<Byte>, rest: seq<Byte>, later: seq<seq<Byte>>)
    requires Valid(d) && m < SERIAL_TIMEOUT
    requires MARKER !in garbage && |garbage| < SERIAL_TIMEOUT
    requires |frame| == FRAME_SIZE && frame[0] == MARKER && !ChecksumValid(frame)
    requires d.serial.pending == Silence(m) + [garbage + frame + rest] + later
    ensures var r := SendCmd(d, cmdType, p1, p2, p3, stale);
      && r.exit == ChecksumMismatch
      && r.status == ACK_FAIL
      && r.fields == stale
      && r.driver.ackBuffer == frame
      && r.driver.serial.rx == []
      && r.driver.serial.pending == later
  {
    ExchangeReadsFrame(d, cmdType, p1, p2, p3, stale, m, garbage, frame, rest, later);
  }

  /** If the device echoes the command frame, the echo passes the checksum
      and sendCmd returns p3 with ackType = cmdType, q1 = p1, q2 = p2. */
  lemma {:induction false} LoopbackExchange(d: Driver, cmdType: Byte, p1: Byte, p2: Byte, p3: Byte, stale: AckFields, m: nat, later: seq<seq<Byte>>)
    requires Valid(d) && m < SERIAL_TIMEOUT
    requires d.serial.pending == Silence(m) + [CommandFrame(cmdType, p1, p2, p3)] + later
    ensures var r := SendCmd(d, cmdType, p1, p2, p3, stale);
      && r.exit == Acknowledged
      && r.status == p3
      && r.fields == AckFields(cmdType, p1, p2)
      && r.driver.serial.rx == []
  {
    var frame := CommandFrame(cmdType, p1, p2, p3);
    assert [] + frame + [] == frame;
    ExchangeSkipsGarbage(d, cmdType, p1, p2, p3, stale, m, [], frame, [], later);
  }

  /** A marker found only after exactly SERIAL_TIMEOUT discards leaves the
      trim counter at 0: the exchange reports a serial timeout and flushes,
      although a trusted frame was there. */
  lemma MarkerAtBudgetTimesOut(d: Driver, cmdType: Byte, p1: Byte, p2: Byte, p3: Byte, stale: AckFields,
                               garbage: seq<Byte>, ack: seq<Byte>, later: seq<seq<Byte>>)
    requires Valid(d)
    requires MARKER !in garbage && |garbage| == SERIAL_TIMEOUT
    requires ChecksumValid(ack) && ack[0] == MARKER
    requires d.serial.pending == [garbage + ack] + later
    ensures var r := SendCmd(d, cmdType, p1, p2, p3, stale);
      && r.exit == ResyncTimeout
      && r.status == ACK_SERIALTIMEOUT
      && r.fields == stale
      && r.driver.serial.rx == []
      && r.driver.serial.pending == later
  {
    SentReceives(d, cmdType, p1, p2, p3, garbage + ack, later);
    TrimToMarker(garbage, ack, SERIAL_TIMEOUT);
  }

  /** With fewer than 8 bytes buffered a round does nothing. */
  lemma RoundWaits(d: Driver, stale: AckFields)
    requires Valid(d) && |d.serial.rx| < 8
    ensures Round(d, stale) == Continue(d)
  {
  }

  /** With fewer than 8 bytes buffered the poll waits one tick. */
  lemma PollWaits(d: Driver, timer: nat, stale: AckFields)
    requires Valid(d) && |d.serial.rx| < 8 && timer > 0
    ensures Poll(d, timer, stale) == Poll(d.(serial := Tick(d.serial)), timer - 1, stale)
  {
    RoundWaits(d, stale);
    PollContinues(d, timer, stale);
  }

  /** A round that returns ends the poll with its result. */
  lemma PollStopsAt(d: Driver, timer: nat, stale: AckFields)
    requires Valid(d) && timer > 0 && Round(d, stale).Done?
    ensures Poll(d, timer, stale) == Round(d, stale).ack
  {
  }

  /** Reading a buffer that holds exactly one frame empties it. */
  lemma ReadWholeFrame(d: Driver, frame: seq<Byte>, stale: AckFields)
    requires Valid(d) && |frame| == FRAME_SIZE
    ensures ReadAck(d, frame, stale).driver.ackBuffer == frame
    ensures ReadAck(d, frame, stale).driver.serial.rx == []
  {
    assert frame[..FRAME_SIZE] == frame;
  }

  /** An exchange whose first round returns ends with that round's result. */
  lemma FirstRoundDecides(d: Driver, cmdType: Byte, p1: Byte, p2: Byte, p3: Byte, stale: AckFields)
    requires Valid(d) && Round(Sent(d, cmdType, p1, p2, p3), stale).Done?
    ensures SendCmd(d, cmdType, p1, p2, p3, stale) == Round(Sent(d, cmdType, p1, p2, p3), stale).ack
  {
    PollStopsAt(Sent(d, cmdType, p1, p2, p3), SERIAL_TIMEOUT, stale);
  }

  /** When exactly SERIAL_TIMEOUT non-marker bytes are buffered before 8
      more without a marker, the trim counter wraps and those 8 bytes are
      read as a frame. */
  lemma RoundReadsUnaligned(d: Driver, stale: AckFields, garbage: seq<Byte>, ack: seq<Byte>)
    requires Valid(d)
    requires MARKER !in garbage && |garbage| == SERIAL_TIMEOUT
    requires |ack| == FRAME_SIZE && MARKER !in ack
    requires d.serial.rx == garbage + ack
    ensures Round(d, stale) == Done(ReadAck(d, ack, stale))
  {
    var rx := garbage + ack;
    assert MARKER !in rx;
    TrimWithoutMarker(rx, SERIAL_TIMEOUT);
    assert rx[SERIAL_TIMEOUT..] == ack;
    RoundAfterTrim(d, stale, ack, UINT_MAX);
  }

  /** When more than SERIAL_TIMEOUT non-marker bytes precede it, the trim
      counter wraps and the next 8 bytes are read as a frame even though
      they do not start with the marker. */
  lemma UnalignedFrameAccepted(d: Driver, cmdType: Byte, p1: Byte, p2: Byte, p3: Byte, stale: AckFields,
                               garbage: seq<Byte>, ack: seq<Byte>, later: seq<seq<Byte>>)
    requires Valid(d)
    requires MARKER !in garbage && |garbage| == SERIAL_TIMEOUT
    requires ChecksumValid(ack) && MARKER !in ack
    requires d.serial.pending == [garbage + ack] + later
    ensures var r := SendCmd(d, cmdType, p1, p2, p3, stale);
      && r.exit == Acknowledged
      && r.driver.ackBuffer == ack
      && ack[0] != MARKER
      && r.status == ack[4]
      && r.fields == FieldsOf(ack)
  {
    assert ack[0] in ack;
    var d' := Sent(d, cmdType, p1, p2, p3);
    SentReceives(d, cmdType, p1, p2, p3, garbage + ack, later);
    RoundReadsUnaligned(d', stale, garbage, ack);
    FirstRoundDecides(d, cmdType, p1, p2, p3, stale);
    ReadWholeFrame(d', ack, stale);
  }

  /** Bytes without a marker, fewer than the trim budget, are all discarded,
      the trim counter wraps, and polling goes on: no timeout is reported. */
  lemma MarkerlessInputDropped(d: Driver, timer: nat, stale: AckFields)
    requires Valid(d)
    requires timer > 0
    requires MARKER !in d.serial.rx
    requires 8 <= |d.serial.rx| <= SERIAL_TIMEOUT
    ensures Poll(d, timer, stale) == Poll(d.(serial := Tick(d.serial.(rx := []))), timer - 1, stale)
  {
    var rx := d.serial.rx;
    TrimWithoutMarker(rx, SERIAL_TIMEOUT);
    assert rx[|rx|..] == [];
    assert Round(d, stale) == Continue(d.(serial := d.serial.(rx := [])));
    PollContinues(d, timer, stale);
  }

  /** A round that goes on is followed by a tick and the rest of the poll. */
  lemma PollContinues(d: Driver, timer: nat, stale: AckFields)
    requires Valid(d) && timer > 0 && Round(d, stale).Continue?
    ensures var next := Round(d, stale).next;
      Poll(d, timer, stale) == Poll(next.(serial := Tick(next.serial)), timer - 1, stale)
  {
  }

  /** The exchange ran out of budget: a serial timeout, input flushed,
      out-parameters unwritten, `pending` still to arrive. */
  predicate NoReplyWith(r: Ack, stale: AckFields, pending: seq<seq<Byte>>) {
    && r.exit == NoReply
    && r.status == ACK_SERIALTIMEOUT
    && r.fields == stale
    && r.driver.serial.rx == []
    && r.driver.serial.pending == pending
  }

  /** Total input ever available in a poll: buffered plus scheduled bytes. */
  function Input(s: Serial): nat {
    |s.rx| + Scheduled(s.pending)
  }

  /** A tick moves bytes from the schedule into the buffer and loses none. */
  lemma TickKeepsInput(s: Serial)
    ensures Input(Tick(s)) == Input(s)
  {
    if |s.pending| > 0 {
      assert Scheduled(s.pending) == |s.pending[0]| + Scheduled(s.pending[1..]);
    }
  }

  /** One tick now and `ticks - 1` later leave the same schedule as `ticks` from now. */
  lemma AfterTick(s: Serial, ticks: nat)
    requires ticks > 0
    ensures After(Tick(s).pending, ticks - 1) == After(s.pending, ticks)
  {
  }

  /** If fewer than 8 bytes can ever be buffered, the poll uses its whole
      budget (one tick per round), then flushes and reports a serial timeout. */
  lemma {:induction false} PollStarved(d: Driver, timer: nat, stale: AckFields)
    requires Valid(d)
    requires Input(d.serial) < 8
    ensures NoReplyWith(Poll(d, timer, stale), stale, After(d.serial.pending, timer))
    decreases timer
  {
    if timer > 0 {
      var d' := d.(serial := Tick(d.serial));
      PollWaits(d, timer, stale);
      TickKeepsInput(d.serial);
      AfterTick(d.serial, timer);
      PollStarved(d', timer - 1, stale);
    }
  }

  /** A device that sends fewer than 8 bytes in all makes the exchange end
      in a serial timeout with the input flushed, after SERIAL_TIMEOUT polls
      and SERIAL_TIMEOUT + 1 ticks. */
  lemma SilentDeviceTimesOut(d: Driver, cmdType: Byte, p1: Byte, p2: Byte, p3: Byte, stale: AckFields)
    requires Valid(d)
    requires Scheduled(d.serial.pending) < 8
    ensures NoReplyWith(SendCmd(d, cmdType, p1, p2, p3, stale), stale, After(d.serial.pending, SERIAL_TIMEOUT + 1))
  {
    var flushed := Write(Flush(d.serial), CommandFrame(cmdType, p1, p2, p3));
    TickKeepsInput(flushed);
    AfterTick(flushed, SERIAL_TIMEOUT + 1);
    PollStarved(Sent(d, cmdType, p1, p2, p3), SERIAL_TIMEOUT, stale);
  }

  /** Whatever was buffered before the call has no influence on the exchange. */
  lemma ExchangeIgnoresStaleInput(d: Driver, junk: seq<Byte>, cmdType: Byte, p1: Byte, p2: Byte, p3: Byte, stale: AckFields)
    requires Valid(d)
    ensures var r1 := SendCmd(d, cmdType, p1, p2, p3, stale);
      var r2 := SendCmd(d.(serial := d.serial.(rx := junk)), cmdType, p1, p2, p3, stale);
      r1.status == r2.status && r1.fields == r2.fields && r1.exit == r2.exit && r1.driver.serial == r2.driver.serial
  {
    var d2 := d.(serial := d.serial.(rx := junk));
    assert Sent(d, cmdType, p1, p2, p3) == Sent(d2, cmdType, p1, p2, p3);
  }
}
