/** Wire-level vocabulary of the SFM-V1.7 fingerprint module driver: the byte
    and word types, the constants of the header, the closed set of
    acknowledgement codes, and the C integer conversions the driver relies on.
 */
module Protocol {

  /** `uint8_t` */
  type Byte = x: int | 0 <= x < 256

  /** `uint16_t` */
  type Word = x: int | 0 <= x < 0x1_0000

  /** `int8_t` */
  type Int8 = x: int | -128 <= x < 128

  function Pow2(n: nat): (r: nat)
    ensures r >= 1
  {
    if n == 0 then 1 else 2 * Pow2(n - 1)
  }

  lemma {:induction false} Pow2Monotone(m: nat, n: nat)
    requires m <= n
    ensures Pow2(m) <= Pow2(n)
    decreases n
  {
    if m < n {
      Pow2Monotone(m, n - 1);
    }
  }

  /** The low `n` bits of `x`, least significant first. */
  function ToBits(x: nat, n: nat): (bits: seq<bool>)
    ensures |bits| == n
  {
    if n == 0 then [] else [x % 2 == 1] + ToBits(x / 2, n - 1)
  }

  /** The natural whose bits, least significant first, are `bits`. */
  function FromBits(bits: seq<bool>): (x: nat)
    ensures x < Pow2(|bits|)
  {
    if |bits| == 0 then 0 else (if bits[0] then 1 else 0) + 2 * FromBits(bits[1..])
  }

  lemma LowBitAndRest(x: nat, y: nat, p: nat)
    requires p < 2 && x == p + 2 * y
    ensures x % 2 == p && x / 2 == y
  {
  }

  /** Reading back the bits of a natural gives the bits. */
  lemma {:induction false} ToFromBits(bits: seq<bool>)
    ensures ToBits(FromBits(bits), |bits|) == bits
  {
    if |bits| > 0 {
      var x := FromBits(bits);
      LowBitAndRest(x, FromBits(bits[1..]), if bits[0] then 1 else 0);
      ToFromBits(bits[1..]);
      assert ToBits(x, |bits|) == [bits[0]] + bits[1..];
    }
  }

  /** A natural below 2^n is the value of its low n bits. */
  lemma {:induction false} FromToBits(x: nat, n: nat)
    requires x < Pow2(n)
    ensures FromBits(ToBits(x, n)) == x
  {
    if n > 0 {
      var bits := ToBits(x, n);
      assert bits[1..] == ToBits(x / 2, n - 1);
      FromToBits(x / 2, n - 1);
    }
  }

  /** Bitwise exclusive or of two bit strings of the same length. */
  function XorBits(p: seq<bool>, q: seq<bool>): (r: seq<bool>)
    requires |p| == |q|
    ensures |r| == |p|
    ensures forall i :: 0 <= i < |r| ==> r[i] == (p[i] != q[i])
  {
    seq(|p|, i requires 0 <= i < |p| => p[i] != q[i])
  }

  /** Exclusive or of the low `n` bits of two naturals, one bit at a time. */
  function XorN(a: nat, b: nat, n: nat): (r: nat)
    ensures r < Pow2(n)
  {
    if n == 0 then 0 else (if a % 2 != b % 2 then 1 else 0) + 2 * XorN(a / 2, b / 2, n - 1)
  }

  /** `^` on `uint8_t`. */
  function Xor(a: Byte, b: Byte): Byte {
    XorN(a, b, 8)
  }

  /** The bits of XorN are the exclusive or of the bits. */
  lemma {:induction false} XorNBits(a: nat, b: nat, n: nat)
    ensures ToBits(XorN(a, b, n), n) == XorBits(ToBits(a, n), ToBits(b, n))
  {
    if n > 0 {
      var x := XorN(a, b, n);
      LowBitAndRest(x, XorN(a / 2, b / 2, n - 1), if a % 2 != b % 2 then 1 else 0);
      XorNBits(a / 2, b / 2, n - 1);
      var A, B := ToBits(a, n), ToBits(b, n);
      assert A[1..] == ToBits(a / 2, n - 1) && B[1..] == ToBits(b / 2, n - 1);
      assert ToBits(x, n) == [x % 2 == 1] + ToBits(x / 2, n - 1);
      assert XorBits(A, B) == [A[0] != B[0]] + XorBits(A[1..], B[1..]);
    }
  }

  /** The bits of `a ^ b` are the exclusive or of the bits of a and b. */
  lemma XorBitsOf(a: Byte, b: Byte)
    ensures ToBits(Xor(a, b), 8) == XorBits(ToBits(a, 8), ToBits(b, 8))
  {
    XorNBits(a, b, 8);
  }

  /** Two bytes with the same bits are equal. */
  lemma BitsDetermineByte(a: Byte, b: Byte)
    requires ToBits(a, 8) == ToBits(b, 8)
    ensures a == b
  {
    FromToBits(a, 8);
    FromToBits(b, 8);
  }

  /** The bits of zero are all clear. */
  lemma {:induction false} ZeroBits(n: nat)
    ensures forall i :: 0 <= i < n ==> !ToBits(0, n)[i]
  {
    if n > 0 {
      ZeroBits(n - 1);
      assert ToBits(0, n) == [false] + ToBits(0, n - 1);
    }
  }

  /** The algebra of `^` the checksum relies on. */
  lemma XorLaws(a: Byte, b: Byte, c: Byte)
    ensures Xor(Xor(a, b), c) == Xor(a, Xor(b, c))
    ensures Xor(a, b) == Xor(b, a)
    ensures Xor(a, 0) == a
    ensures Xor(a, a) == 0
  {
    var A, B, C := ToBits(a, 8), ToBits(b, 8), ToBits(c, 8);
    XorBitsOf(a, b);
    XorBitsOf(b, c);
    XorBitsOf(Xor(a, b), c);
    XorBitsOf(a, Xor(b, c));
    assert XorBits(XorBits(A, B), C) == XorBits(A, XorBits(B, C));
    BitsDetermineByte(Xor(Xor(a, b), c), Xor(a, Xor(b, c)));
    XorBitsOf(b, a);
    assert XorBits(A, B) == XorBits(B, A);
    BitsDetermineByte(Xor(a, b), Xor(b, a));
    ZeroBits(8);
    XorBitsOf(a, 0);
    assert XorBits(A, ToBits(0, 8)) == A;
    BitsDetermineByte(Xor(a, 0), a);
    XorBitsOf(a, a);
    assert XorBits(A, A) == ToBits(0, 8);
    BitsDetermineByte(Xor(a, a), 0);
  }

  /** XOR with `b` leaves `a` unchanged exactly when `b` is zero. */
  lemma XorCancel(a: Byte, b: Byte)
    ensures Xor(a, b) == a <==> b == 0
  {
    XorLaws(a, 0, 0);
    if Xor(a, b) == a {
      var A, B := ToBits(a, 8), ToBits(b, 8);
      XorBitsOf(a, b);
      ZeroBits(8);
      assert forall i :: 0 <= i < 8 ==> !B[i] by {
        forall i | 0 <= i < 8 ensures !B[i] {
          assert XorBits(A, B)[i] == A[i];
        }
      }
      assert B == ToBits(0, 8);
      BitsDetermineByte(b, 0);
    }
  }

  datatype Option<+T> = None | Some(value: T)

  /** Outcome of a loop that may not terminate or may read outside an array.
      With an unsigned `char`, the copy loop of the data-package reader takes
      each empty read as the byte 0xFF, appends "FF" for it and never finds
      the end marker on an empty buffer: that is `Spins`. With a signed
      `char`, the same empty read (or any byte from 0x80 up) indexes the
      digit table with a negative number: that is `ReadsOutOfBounds`. */
  datatype Run<+T> =
    | Returns(value: T)
    | Spins              // a loop with no budget of its own never ends
    | ReadsOutOfBounds   // an array is indexed with a negative index

  /** Frame marker, written at offsets 0 and 7 of every frame. */
  const MARKER: Byte := 0xF5

  /** One budget, in ticks, for the exchange poll, the resynchronisation
      loop and the data-package poll. */
  const SERIAL_TIMEOUT: nat := 8000

  const DEFAULT_USERROLE: Byte := 0x03

  const ACK_SUCCESS: Byte := 0x00
  const ACK_FAIL: Byte := 0x01
  const ACK_FULL: Byte := 0x04
  const ACK_NOUSER: Byte := 0x05
  const ACK_USER_EXIST: Byte := 0x07
  const ACK_TIMEOUT: Byte := 0x08
  const ACK_HWERROR: Byte := 0x0A
  const ACK_IMGERROR: Byte := 0x10
  const ACK_BREAK: Byte := 0x18
  const ACK_ALGORITHMFAIL: Byte := 0x11
  const ACK_HOMOLOGYFAIL: Byte := 0x12
  const ACK_SERIALTIMEOUT: Byte := 0x13
  const ACK_IDLE: Byte := 0x14

  const RING_OFF: Byte := 0x07
  const RING_RED: Byte := 0x03
  const RING_GREEN: Byte := 0x05
  const RING_BLUE: Byte := 0x06
  const RING_YELLOW: Byte := 0x01
  const RING_PURPLE: Byte := 0x02
  const RING_CYAN: Byte := 0x04

  /** The thirteen outcomes a command can report. */
  datatype AckCode =
    | Success | Fail | Full | NoUser | UserExist | Timeout | HwError
    | ImgError | Break | AlgorithmFail | HomologyFail | SerialTimeout | Idle
  {
    /** The wire value of the code. */
    function Code(): Byte {
      match this
      case Success => ACK_SUCCESS
      case Fail => ACK_FAIL
      case Full => ACK_FULL
      case NoUser => ACK_NOUSER
      case UserExist => ACK_USER_EXIST
      case Timeout => ACK_TIMEOUT
      case HwError => ACK_HWERROR
      case ImgError => ACK_IMGERROR
      case Break => ACK_BREAK
      case AlgorithmFail => ACK_ALGORITHMFAIL
      case HomologyFail => ACK_HOMOLOGYFAIL
      case SerialTimeout => ACK_SERIALTIMEOUT
      case Idle => ACK_IDLE
    }
  }

  /** Reads a status byte back as a code; bytes that are no code give None. */
  function AckCodeOf(b: Byte): (r: Option<AckCode>)
    ensures r.Some? ==> r.value.Code() == b
    ensures r.None? ==> forall a: AckCode :: a.Code() != b
  {
    if b == ACK_SUCCESS then Some(Success)
    else if b == ACK_FAIL then Some(Fail)
    else if b == ACK_FULL then Some(Full)
    else if b == ACK_NOUSER then Some(NoUser)
    else if b == ACK_USER_EXIST then Some(UserExist)
    else if b == ACK_TIMEOUT then Some(Timeout)
    else if b == ACK_HWERROR then Some(HwError)
    else if b == ACK_IMGERROR then Some(ImgError)
    else if b == ACK_BREAK then Some(Break)
    else if b == ACK_ALGORITHMFAIL then Some(AlgorithmFail)
    else if b == ACK_HOMOLOGYFAIL then Some(HomologyFail)
    else if b == ACK_SERIALTIMEOUT then Some(SerialTimeout)
    else if b == ACK_IDLE then Some(Idle)
    else None
  }

  /** The wire values are pairwise distinct: a status byte names at most one code. */
  lemma AckCodesDistinct(a: AckCode, c: AckCode)
    ensures a.Code() == c.Code() ==> a == c
    ensures AckCodeOf(a.Code()) == Some(a)
  {
  }

  /** Largest `unsigned int`. It is 16 bits wide on AVR and 32 bits on ESP32;
      the driver only depends on it being nonzero. */
  const UINT_MAX: nat := 0xFFFF

  /** The value an `unsigned int` counter holds after `t--`, wrapping at zero. */
  function PostDecrement(t: nat): (r: nat)
    requires t <= UINT_MAX
    ensures r <= UINT_MAX
    ensures t > 0 ==> r == t - 1
    ensures t == 0 ==> r == UINT_MAX
  {
    (t - 1) % (UINT_MAX + 1)
  }

  /** Conversion of a `uint8_t` to `int8_t` (two's complement). */
  function ToInt8(b: Byte): Int8 {
    if b < 0x80 then b else b - 256
  }

  /** Conversion of an `int8_t` back to `uint8_t` (reduction modulo 256). */
  function ToUint8(x: Int8): Byte {
    x % 256
  }

  lemma Int8RoundTrip(b: Byte, x: Int8)
    ensures ToUint8(ToInt8(b)) == b
    ensures ToInt8(ToUint8(x)) == x
  {
  }

  /** The `char` a value returned by `Stream::read()` (a byte, or -1 when
      nothing is buffered) becomes, on a platform whose `char` is signed or
      unsigned. */
  function ReadAsChar(v: int, signedChar: bool): (c: int)
    requires -1 <= v < 256
    ensures signedChar ==> -128 <= c < 128
    ensures !signedChar ==> 0 <= c < 256
    ensures 0 <= v && (!signedChar || v < 0x80) ==> c == v
    ensures signedChar && v >= 0x80 ==> c == v - 256
    ensures v == -1 ==> c == (if signedChar then -1 else 255)
  {
    if v < 0 then (if signedChar then v else v + 256)
    else if signedChar && v >= 0x80 then v - 256
    else v
  }

  /** C's `/`, which truncates toward zero. */
  function CDiv(a: int, b: int): (q: int)
    requires b > 0
    ensures a >= 0 ==> 0 <= a - q * b < b
    ensures a < 0 ==> -b < a - q * b <= 0
  {
    if a >= 0 then a / b else -((-a) / b)
  }

  /** C's `%`, whose result takes the sign of the dividend. */
  function CRem(a: int, b: int): (m: int)
    requires b > 0
    ensures a == CDiv(a, b) * b + m
    ensures a >= 0 ==> 0 <= m < b
    ensures a < 0 ==> -b < m <= 0
  {
    a - b * CDiv(a, b)
  }

  /** Arduino's `constrain(x, lo, hi)`. */
  function Constrain(x: int, lo: int, hi: int): (r: int)
    requires lo <= hi
    ensures lo <= r <= hi
    ensures lo <= x <= hi ==> r == x
    ensures x < lo ==> r == lo
    ensures x > hi ==> r == hi
  {
    if x < lo then lo else if x > hi then hi else x
  }
}
