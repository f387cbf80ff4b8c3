/** The 8-byte frame shared by commands and acknowledgements:
    marker, type, three parameter bytes, a reserved zero byte, the checksum
    and a closing marker. The checksum is the XOR of offsets 1 to 5.
 */
module Frame {
  import opened Protocol

  const FRAME_SIZE: nat := 8

  /** XOR of all bytes of `s`, folded from the left. */
  function XorFold(s: seq<Byte>): Byte {
    if |s| == 0 then 0 else Xor(XorFold(s[..|s| - 1]), s[|s| - 1])
  }

  /** The checksum of an 8-byte buffer: XOR of offsets 1..5. */
  function Checksum(buffer: seq<Byte>): Byte
    requires |buffer| == FRAME_SIZE
  {
    XorFold(buffer[1..6])
  }

  /** A frame is trusted only when offset 6 holds the checksum of offsets 1..5. */
  predicate ChecksumValid(frame: seq<Byte>) {
    |frame| == FRAME_SIZE && frame[6] == Checksum(frame)
  }

  /** `_getCheckSum`: the `for` loop over offsets 1..5 computes the checksum. */
  method GetCheckSum(buffer: seq<Byte>) returns (result: Byte)
    requires |buffer| == FRAME_SIZE
    ensures result == Checksum(buffer)
    ensures result == Xor(Xor(Xor(Xor(buffer[1], buffer[2]), buffer[3]), buffer[4]), buffer[5])
  {
    result := 0x00;
    var i := 1;
    while i <= 5
      invariant 1 <= i <= 6
      invariant result == XorFold(buffer[1..i])
    {
      assert buffer[1..i + 1][..i - 1] == buffer[1..i];
      result := Xor(result, buffer[i]);
      i := i + 1;
    }
    ChecksumOfFive(buffer);
  }

  /** The checksum is the XOR of the five bytes at offsets 1..5. */
  lemma ChecksumOfFive(buffer: seq<Byte>)
    requires |buffer| == FRAME_SIZE
    ensures Checksum(buffer) == Xor(Xor(Xor(Xor(buffer[1], buffer[2]), buffer[3]), buffer[4]), buffer[5])
  {
    var s := buffer[1..6];
    assert XorFold(s[..1]) == s[0] by {
      assert s[..1][..0] == [];
      XorLaws(0, s[0], 0);
      XorLaws(s[0], 0, 0);
      assert XorFold(s[..1]) == Xor(XorFold([]), s[0]);
    }
    assert XorFold(s[..2]) == Xor(XorFold(s[..1]), s[1]) by { assert s[..2][..1] == s[..1]; }
    assert XorFold(s[..3]) == Xor(XorFold(s[..2]), s[2]) by { assert s[..3][..2] == s[..2]; }
    assert XorFold(s[..4]) == Xor(XorFold(s[..3]), s[3]) by { assert s[..4][..3] == s[..3]; }
    assert XorFold(s) == Xor(XorFold(s[..4]), s[4]) by { assert s[..4] == s[..|s| - 1]; }
  }

  /** Flipping bits `d` of one byte flips the same bits of the fold. */
  lemma {:induction false} XorFoldFlip(s: seq<Byte>, j: nat, d: Byte)
    requires j < |s|
    ensures XorFold(s[j := Xor(s[j], d)]) == Xor(XorFold(s), d)
    decreases |s|
  {
    var s' := s[j := Xor(s[j], d)];
    var n := |s| - 1;
    var pre := XorFold(s[..n]);
    if j == n {
      assert s'[..n] == s[..n];
      XorLaws(pre, s[n], d);
    } else {
      assert s'[..n] == s[..n][j := Xor(s[j], d)];
      XorFoldFlip(s[..n], j, d);
      XorLaws(pre, d, s[n]);
      XorLaws(pre, s[n], d);
      XorLaws(d, s[n], 0);
    }
  }

  /** Changing any bits of offsets 1..5 of a trusted frame makes it untrusted. */
  lemma CorruptionDetected(frame: seq<Byte>, i: nat, d: Byte)
    requires ChecksumValid(frame)
    requires 1 <= i <= 5
    requires d != 0
    ensures !ChecksumValid(frame[i := Xor(frame[i], d)])
  {
    var f' := frame[i := Xor(frame[i], d)];
    assert f'[1..6] == frame[1..6][i - 1 := Xor(frame[1..6][i - 1], d)];
    XorFoldFlip(frame[1..6], i - 1, d);
    XorCancel(Checksum(frame), d);
  }

  /** In particular any single-bit error in offsets 1..5 is detected. */
  lemma SingleBitErrorDetected(frame: seq<Byte>, i: nat, bit: nat)
    requires ChecksumValid(frame)
    requires 1 <= i <= 5
    requires bit < 8
    ensures Pow2(bit) < 256
    ensures !ChecksumValid(frame[i := Xor(frame[i], Pow2(bit))])
  {
    assert Pow2(bit) <= Pow2(7) == 128 by { Pow2Monotone(bit, 7); }
    CorruptionDetected(frame, i, Pow2(bit));
  }

  /** The command buffer's lasting shape: markers at both ends and offset 5,
      which no code writes, still zero. */
  predicate CmdBufferInv(buffer: seq<Byte>) {
    |buffer| == FRAME_SIZE && buffer[0] == MARKER && buffer[5] == 0 && buffer[7] == MARKER
  }

  /** The zero-initialised `uint8_t cmdBuffer[8]` after the constructor has
      written the two markers. */
  const CONSTRUCTED_CMD_BUFFER: seq<Byte> := [0, 0, 0, 0, 0, 0, 0, 0][0 := MARKER][7 := MARKER]

  lemma ConstructedCmdBufferInv()
    ensures CmdBufferInv(CONSTRUCTED_CMD_BUFFER)
    ensures forall i :: 1 <= i < 7 ==> CONSTRUCTED_CMD_BUFFER[i] == 0
  {
  }

  /** `sendCmd` fills offsets 1..4 with the command and its parameters and
      offset 6 with the checksum; offsets 0, 5 and 7 keep what they held. */
  function FillCommand(buffer: seq<Byte>, cmdType: Byte, p1: Byte, p2: Byte, p3: Byte): (r: seq<Byte>)
    requires CmdBufferInv(buffer)
    ensures CmdBufferInv(r)
    ensures ChecksumValid(r)
    ensures r[1] == cmdType && r[2] == p1 && r[3] == p2 && r[4] == p3
    ensures r[6] == Xor(Xor(Xor(cmdType, p1), p2), p3)
  {
    var filled := buffer[1 := cmdType][2 := p1][3 := p2][4 := p3];
    ChecksumOfFive(filled);
    XorLaws(Xor(Xor(Xor(cmdType, p1), p2), p3), 0, 0);
    filled[6 := Checksum(filled)]
  }

  /** The frame sent depends on the command alone, not on what the buffer held before. */
  lemma FillCommandForgetsHistory(b1: seq<Byte>, b2: seq<Byte>, cmdType: Byte, p1: Byte, p2: Byte, p3: Byte)
    requires CmdBufferInv(b1) && CmdBufferInv(b2)
    ensures FillCommand(b1, cmdType, p1, p2, p3) == FillCommand(b2, cmdType, p1, p2, p3)
  {
    var r1 := FillCommand(b1, cmdType, p1, p2, p3);
    var r2 := FillCommand(b2, cmdType, p1, p2, p3);
    assert forall i :: 0 <= i < FRAME_SIZE ==> r1[i] == r2[i];
  }

  /** The command frame for a command type and three parameters. */
  function CommandFrame(cmdType: Byte, p1: Byte, p2: Byte, p3: Byte): (f: seq<Byte>)
    ensures |f| == FRAME_SIZE
    ensures f[0] == MARKER && f[7] == MARKER && f[5] == 0
    ensures f[1] == cmdType && f[2] == p1 && f[3] == p2 && f[4] == p3
    ensures f[6] == Xor(Xor(Xor(Xor(f[1], f[2]), f[3]), f[4]), f[5])
    ensures ChecksumValid(f)
  {
    ConstructedCmdBufferInv();
    XorLaws(Xor(Xor(Xor(cmdType, p1), p2), p3), 0, 0);
    FillCommand(CONSTRUCTED_CMD_BUFFER, cmdType, p1, p2, p3)
  }

  /** The three echoed fields an acknowledgement carries besides its status. */
  datatype AckFields = AckFields(ackType: Byte, q1: Byte, q2: Byte)

  /** The fields of an 8-byte acknowledgement: type at 1, q1 at 2, q2 at 3. */
  function FieldsOf(frame: seq<Byte>): AckFields
    requires |frame| == FRAME_SIZE
  {
    AckFields(frame[1], frame[2], frame[3])
  }

  /** Decoding an encoded frame gives back what was encoded, and the frame is trusted. */
  lemma EncodeDecode(cmdType: Byte, p1: Byte, p2: Byte, p3: Byte)
    ensures var f := CommandFrame(cmdType, p1, p2, p3);
      ChecksumValid(f) && FieldsOf(f) == AckFields(cmdType, p1, p2) && f[4] == p3
  {
  }
}
