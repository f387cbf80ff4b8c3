/** The serial link as the driver sees it through Arduino's `Stream`
    interface: a receive buffer it can count, peek and read, a schedule of
    bytes still to arrive, and the bytes it has written.

    Time is abstract: one tick is one `delay()` of a polling loop (or the
    wait for a transmission to complete), and during a tick the next entry
    of the schedule is appended to the receive buffer. Nothing arrives while
    the driver runs a loop that has no `delay()`.
 */
module Channel {
  import opened Protocol

  datatype Serial = Serial(rx: seq<Byte>, pending: seq<seq<Byte>>, tx: seq<Byte>)

  /** `available()` */
  function Available(s: Serial): nat {
    |s.rx|
  }

  /** `peek()`: the next byte without consuming it, or -1 when nothing is
      buffered; -1 never equals a byte, in particular never the marker. */
  function Peek(rx: seq<Byte>): (r: int)
    ensures -1 <= r < 256
    ensures r == -1 <==> |rx| == 0
    ensures |rx| > 0 ==> r == rx[0]
  {
    if |rx| == 0 then -1 else rx[0]
  }

  /** The buffer after one `read()`: the first byte goes, an empty buffer stays empty. */
  function Consume(rx: seq<Byte>): (r: seq<Byte>)
    ensures |rx| > 0 ==> r == rx[1..]
    ensures |rx| == 0 ==> r == []
  {
    if |rx| == 0 then [] else rx[1..]
  }

  /** The flush loop: one `read()` at a time for as long as `available()`
      reports buffered bytes. It empties the buffer and touches neither the
      schedule nor what was written. */
  function Flush(s: Serial): (r: Serial)
    ensures r.rx == [] && r.pending == s.pending && r.tx == s.tx
    decreases |s.rx|
  {
    if Available(s) == 0 then s else Flush(s.(rx := Consume(s.rx)))
  }

  /** `write(buffer, n)` */
  function Write(s: Serial, bytes: seq<Byte>): (r: Serial)
    ensures r.tx == s.tx + bytes && r.rx == s.rx && r.pending == s.pending
  {
    s.(tx := s.tx + bytes)
  }

  /** One tick: the next scheduled bytes join the receive buffer. */
  function Tick(s: Serial): (r: Serial)
    ensures r.tx == s.tx
    ensures |s.pending| == 0 ==> r == s
    ensures |s.pending| > 0 ==> r.rx == s.rx + s.pending[0] && r.pending == s.pending[1..]
  {
    if |s.pending| == 0 then s else Serial(s.rx + s.pending[0], s.pending[1..], s.tx)
  }

  /** `k` ticks in a row. */
  function Ticks(s: Serial, k: nat): Serial
    decreases k
  {
    if k == 0 then s else Ticks(Tick(s), k - 1)
  }

  /** The bytes of the first `k` schedule entries, in order. */
  function Arrivals(pending: seq<seq<Byte>>, k: nat): seq<Byte>
    decreases k
  {
    if k == 0 || |pending| == 0 then [] else pending[0] + Arrivals(pending[1..], k - 1)
  }

  /** What is still scheduled after `ticks` ticks: each tick takes the
      first entry, and an empty schedule stays empty. */
  function After(pending: seq<seq<Byte>>, ticks: nat): seq<seq<Byte>>
    decreases ticks
  {
    if ticks == 0 || |pending| == 0 then pending else After(pending[1..], ticks - 1)
  }

  /** After `k` ticks the buffer holds what it held, followed by the first
      `k` scheduled entries in their order; those entries have left the
      schedule, and nothing has been written. */
  lemma {:induction false} TicksDeliver(s: Serial, k: nat)
    ensures Ticks(s, k).rx == s.rx + Arrivals(s.pending, k)
    ensures Ticks(s, k).pending == After(s.pending, k)
    ensures Ticks(s, k).tx == s.tx
    decreases k
  {
    if k > 0 {
      TicksDeliver(Tick(s), k - 1);
      if |s.pending| > 0 {
        assert Arrivals(s.pending, k) == s.pending[0] + Arrivals(s.pending[1..], k - 1);
        assert s.rx + s.pending[0] + Arrivals(s.pending[1..], k - 1)
            == s.rx + (s.pending[0] + Arrivals(s.pending[1..], k - 1));
      } else {
        assert Tick(s) == s;
        assert Arrivals(s.pending, k - 1) == [];
        assert s.rx + [] == s.rx;
      }
    }
  }

  /** Number of bytes the schedule still holds. */
  function Scheduled(pending: seq<seq<Byte>>): nat {
    if |pending| == 0 then 0 else |pending[0]| + Scheduled(pending[1..])
  }

  function Min(a: nat, b: nat): nat {
    if a <= b then a else b
  }

  /** `later` is what is left of `earlier` once some leading entries have
      gone: `earlier` itself, or what is left of its tail. */
  predicate IsSuffix<T(==)>(later: seq<T>, earlier: seq<T>)
    decreases |earlier|
  {
    later == earlier || (|earlier| > 0 && IsSuffix(later, earlier[1..]))
  }

  lemma {:induction false} IsSuffixTrans<T>(a: seq<T>, b: seq<T>, c: seq<T>)
    requires IsSuffix(a, b) && IsSuffix(b, c)
    ensures IsSuffix(a, c)
    decreases |c|
  {
    if b != c {
      IsSuffixTrans(a, b, c[1..]);
    }
  }

  /** Dropping one leading entry leaves a suffix. */
  lemma TailIsSuffix<T>(s: seq<T>)
    requires |s| > 0
    ensures IsSuffix(s[1..], s)
  {
    assert IsSuffix(s[1..], s[1..]);
  }

  /** A `read()` only takes bytes from the front of the buffer. */
  lemma ConsumeSuffix(rx: seq<Byte>)
    ensures IsSuffix(Consume(rx), rx)
  {
    if |rx| > 0 {
      TailIsSuffix(rx);
    }
  }

  /** A tick only takes entries from the front of the schedule. */
  lemma TickSuffix(s: Serial)
    ensures IsSuffix(Tick(s).pending, s.pending)
  {
    if |s.pending| > 0 {
      TailIsSuffix(s.pending);
    }
  }
}
