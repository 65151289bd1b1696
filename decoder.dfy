/**
 * The EX Bus receiver as a pure state machine over the driver's state: the
 * module statics (ready flag, 70-byte frame buffer, junk counter, baud-valid
 * flag) and the three statics local to the receive callback (phase, write
 * index, declared length).  `DataReceive`, `FrameComplete` and `ReadRawRC`
 * give the state after one call of the corresponding C function; the class
 * in the driver module is proved to compute exactly these.
 */
module ExbusDecoder {
  import opened ExbusCrc

  type u8 = x: int | 0 <= x < 0x100
  type u16 = x: int | 0 <= x < 0x1_0000

  datatype Option<T> = None | Some(value: T)

  // Protocol constants.  The two baud rates only feed the serial-port
  // constraint, which is not part of this model.
  const BaudLow: int := 125000
  const BaudHigh: int := 250000
  const FrameMinLen: u8 := 7
  const FrameMaxLen: u8 := 70
  const NumChannels: u8 := 16
  const ByteBegin: bv16 := 0x3E
  const ByteRc: bv8 := 0x31
  /** More junk than this, with no frame ever validated, resets the junk counter. */
  const JunkLimit: u16 := 1000

  /** Addition into the `uint16_t` junk counter, which wraps. */
  function Add16(a: u16, b: u16): (r: u16)
    ensures r == (a + b) % 0x1_0000
  {
    if a + b < 0x1_0000 then a + b else a + b - 0x1_0000
  }

  /** `x++` on a `uint8_t`. */
  function Inc8(x: u8): (r: u8)
    ensures r == (x + 1) % 0x100
  {
    if x < 0xFF then x + 1 else 0
  }

  /**
   * The driver state.  `frameBegun`, `framePos` and `frameLen` are the
   * function-local statics of the receive callback; the rest are the module
   * statics.  All start zeroed, as C statics do.
   */
  datatype Decoder = Decoder(
    frameDone: bool,
    buf: seq<bv8>,
    junkChars: u16,
    baudValid: bool,
    frameBegun: bool,
    framePos: u8,
    frameLen: u8)

  /** The buffer is the 70-byte array. */
  predicate Wf(s: Decoder) { |s.buf| == FrameMaxLen as int }

  /** Power-on state: every static zero or false. */
  function Initial(): (s: Decoder)
    ensures Wf(s) && !s.frameBegun && !s.frameDone && !s.baudValid && s.junkChars == 0
  {
    Decoder(false, seq(FrameMaxLen, _ => 0), 0, false, false, 0, 0)
  }

  /**
   * The write at `exbusBuf[exbusFramePos++]` stays inside the array.  An idle
   * decoder only writes after resetting the index to 0.
   */
  predicate StoreInBounds(s: Decoder) { s.frameBegun ==> s.framePos < FrameMaxLen }

  // ---------------------------------------------------------------------
  // The receive callback, in the order of its statements.
  // ---------------------------------------------------------------------

  /**
   * Phase handling before the store: the start byte opens a frame with the
   * provisional minimum length, position 2 takes the declared length and
   * aborts when it does not fit the buffer, position 4 aborts on anything
   * but an RC frame.  An abort only clears `frameBegun`.
   */
  function Dispatch(s: Decoder, c: bv16): Decoder
  {
    if !s.frameBegun then
      s.(frameBegun := true, frameDone := false, framePos := 0, frameLen := FrameMinLen)
    else if s.framePos == 2 then
      s.(frameLen := Lo(c) as int, frameBegun := Lo(c) as int <= FrameMaxLen)
    else if s.framePos == 4 && Lo(c) != ByteRc then
      s.(frameBegun := false)
    else
      s
  }

  /** The low byte of `c` goes to the write index, which then advances as a `uint8_t`. */
  function Store(s: Decoder, c: bv16): Decoder
    requires Wf(s) && s.framePos < FrameMaxLen
  {
    s.(buf := s.buf[s.framePos := Lo(c)], framePos := Inc8(s.framePos))
  }

  /**
   * End of frame when the index meets the declared length: a zero checksum
   * over the first `frameLen` bytes sets the ready and baud flags, anything
   * else charges `frameLen` to the junk counter; both return to idle.
   */
  function Finish(s: Decoder): Decoder
    requires Wf(s) && s.framePos <= FrameMaxLen
  {
    if s.framePos == s.frameLen then
      if Crc(s.buf[..s.frameLen]) == 0 then
        s.(baudValid := true, frameDone := true, frameBegun := false)
      else
        s.(junkChars := Add16(s.junkChars, s.frameLen), frameBegun := false)
    else
      s
  }

  /**
   * Phase handling touches only the phase fields.  The start byte opens a
   * capture at index 0; a capture ends only at the length byte (when the
   * declared length does not fit) or at the type byte (when it is not 0x31).
   */
  lemma DispatchEffect(s: Decoder, c: bv16)
    ensures var r := Dispatch(s, c); r.buf == s.buf && r.junkChars == s.junkChars && r.baudValid == s.baudValid
    ensures var r := Dispatch(s, c); !s.frameBegun ==> r.frameBegun && !r.frameDone && r.framePos == 0
    ensures var r := Dispatch(s, c); s.frameBegun ==> r.framePos == s.framePos && r.frameDone == s.frameDone
    ensures var r := Dispatch(s, c); s.frameBegun && !r.frameBegun ==> s.framePos == 2 || s.framePos == 4
    ensures var r := Dispatch(s, c); s.frameBegun && s.framePos == 2 ==> r.frameLen == Lo(c) as int
    ensures var r := Dispatch(s, c); s.frameBegun && s.framePos != 2 ==> r.frameLen == s.frameLen
    ensures var r := Dispatch(s, c); s.frameBegun && s.framePos == 2 ==> (r.frameBegun <==> r.frameLen <= FrameMaxLen as int)
    ensures var r := Dispatch(s, c); s.frameBegun && s.framePos == 4 ==> (r.frameBegun <==> Lo(c) == ByteRc)
  {
  }

  /** The store writes `c`'s low byte at the write index, advances the index without wrapping, and changes nothing else. */
  lemma StoreEffect(s: Decoder, c: bv16)
    requires Wf(s) && s.framePos < FrameMaxLen
    ensures var r := Store(s, c); Wf(r) && r.framePos == s.framePos + 1 && r.buf[s.framePos] == Lo(c)
    ensures var r := Store(s, c); forall i :: 0 <= i < |s.buf| && i != s.framePos ==> r.buf[i] == s.buf[i]
    ensures var r := Store(s, c);
      r.frameBegun == s.frameBegun && r.frameDone == s.frameDone && r.frameLen == s.frameLen
      && r.junkChars == s.junkChars && r.baudValid == s.baudValid
  {
  }

  /**
   * The end-of-frame check fires exactly when the index meets the declared
   * length: it ends the capture, raises both flags on checksum 0 and
   * otherwise charges the length as junk; the buffer is never touched.
   */
  lemma FinishEffect(s: Decoder)
    requires Wf(s) && s.framePos <= FrameMaxLen
    ensures var r := Finish(s); r.buf == s.buf && r.framePos == s.framePos && r.frameLen == s.frameLen
    ensures s.framePos != s.frameLen ==> Finish(s) == s
    ensures var r := Finish(s); s.framePos == s.frameLen ==> !r.frameBegun
    ensures var r := Finish(s); var ok := s.framePos == s.frameLen && Crc(s.buf[..s.frameLen]) == 0;
      (r.frameDone <==> s.frameDone || ok) && (r.baudValid <==> s.baudValid || ok)
    ensures var r := Finish(s); s.framePos == s.frameLen && Crc(s.buf[..s.frameLen]) != 0 ==>
      r.junkChars == Add16(s.junkChars, s.frameLen)
  {
  }

  /** One call of the receive callback with character `c`. */
  function DataReceive(s: Decoder, c: bv16): (r: Decoder)
    requires Wf(s) && StoreInBounds(s)
    ensures Wf(r)
  {
    if !s.frameBegun && c != ByteBegin then
      s.(junkChars := Add16(s.junkChars, 1))
    else
      Finish(Store(Dispatch(s, c), c))
  }

  // ---------------------------------------------------------------------
  // The main-loop entry points.
  // ---------------------------------------------------------------------

  /**
   * Reports the ready flag; when it is down, no frame has ever validated and
   * the junk counter is above the limit, the counter restarts from 0 (the
   * place where a baud switch would go).
   */
  function FrameComplete(s: Decoder): (r: (bool, Decoder))
    ensures r.0 == s.frameDone
    ensures !s.frameDone && !s.baudValid && s.junkChars > JunkLimit ==> r.1 == s.(junkChars := 0)
    ensures s.frameDone || s.baudValid || s.junkChars <= JunkLimit ==> r.1 == s
  {
    if s.frameDone then (true, s)
    else if !s.baudValid && s.junkChars > JunkLimit then (false, s.(junkChars := 0))
    else (false, s)
  }

  /** The `uint16_t` built from a high and a low byte by shift and or. */
  function Word(hi: bv8, lo: bv8): (w: bv16)
    ensures w as int == hi as int * 256 + lo as int
  {
    WordValue(hi, lo);
    ((hi as bv16) << 8) | (lo as bv16)
  }

  lemma WordValue(hi: bv8, lo: bv8)
    ensures (((hi as bv16) << 8) | (lo as bv16)) as int == hi as int * 256 + lo as int
  {
  }

  /** Channel `chan` in 1/8 microsecond ticks: the little-endian word at index 6 + 2 * chan. */
  function RawChannel(buf: seq<bv8>, chan: u8): (raw: bv16)
    requires |buf| == FrameMaxLen as int && chan < NumChannels
    ensures 7 + 2 * chan <= 37
    ensures raw as int == buf[7 + 2 * chan] as int * 256 + buf[6 + 2 * chan] as int
  {
    var b := 6 + chan * 2;
    Word(buf[b + 1], buf[b])
  }

  /** Ticks to microseconds, rounded to nearest: the sum is computed in `int`, so it does not wrap. */
  function TicksToMicros(raw: bv16): (us: u16)
    ensures 8 * us <= raw as int + 4 < 8 * us + 8
    ensures us <= 8192
  {
    (raw as int + 4) / 8
  }

  /**
   * One channel read: with the ready flag up and a channel index in range
   * the flag is cleared and the channel decoded; otherwise 0 and no change.
   */
  function ReadRawRC(s: Decoder, chan: u8): (r: (u16, Decoder))
    requires Wf(s)
    ensures r.0 <= 8192
    ensures chan >= NumChannels || !s.frameDone ==> r == (0, s)
    ensures chan < NumChannels && s.frameDone ==> r.1 == s.(frameDone := false)
    ensures chan < NumChannels && s.frameDone ==>
      r.0 == (s.buf[7 + 2 * chan] as int * 256 + s.buf[6 + 2 * chan] as int + 4) / 8
  {
    if chan < NumChannels && s.frameDone then
      (TicksToMicros(RawChannel(s.buf, chan)), s.(frameDone := false))
    else
      (0, s)
  }

  /**
   * A read looks at the ready flag and the two bytes of its channel only:
   * decoders that agree on those return the same value.
   */
  lemma ReadRawRCReadsOnlyChannel(s: Decoder, t: Decoder, chan: u8)
    requires Wf(s) && Wf(t) && chan < NumChannels && s.frameDone == t.frameDone
    requires s.buf[6 + 2 * chan] == t.buf[6 + 2 * chan] && s.buf[7 + 2 * chan] == t.buf[7 + 2 * chan]
    ensures ReadRawRC(s, chan).0 == ReadRawRC(t, chan).0
  {
  }

  // ---------------------------------------------------------------------
  // Sequences of received bytes.
  // ---------------------------------------------------------------------

  /**
   * The decoder after the serial port has delivered `bs`, one callback per
   * byte; `None` when some byte's store would fall outside the buffer.
   */
  function Feed(s: Decoder, bs: seq<bv8>): (r: Option<Decoder>)
    requires Wf(s)
    ensures r.Some? ==> Wf(r.value)
    decreases |bs|
  {
    if |bs| == 0 then Some(s)
    else if !StoreInBounds(s) then None
    else Feed(DataReceive(s, bs[0] as bv16), bs[1..])
  }

  // ---------------------------------------------------------------------
  // The invariant of reachable states.
  // ---------------------------------------------------------------------

  /**
   * While a frame is being captured the index and declared length are in one
   * of three shapes: before the length byte (provisional length 7), with a
   * declared length in range still ahead of the index, or with a declared
   * length 0, 1 or 2 that the index has already passed and will never meet.
   */
  predicate Capturing(s: Decoder)
  {
    || (1 <= s.framePos <= 2 && s.frameLen == FrameMinLen)
    || (3 <= s.framePos < s.frameLen <= FrameMaxLen)
    || (3 <= s.framePos <= FrameMaxLen && s.frameLen < 3)
  }

  /**
   * The header bytes captured so far: the start byte at index 0, the declared
   * length at index 2 and the RC type at index 4, each once the write index
   * has passed it.
   */
  predicate Headed(s: Decoder)
    requires Wf(s)
  {
    && (1 <= s.framePos ==> s.buf[0] as bv16 == ByteBegin)
    && (3 <= s.framePos ==> s.buf[2] as int == s.frameLen)
    && (5 <= s.framePos ==> s.buf[4] == ByteRc)
  }

  /**
   * The buffer holds a frame of the declared length whose checksum is 0; it
   * starts with the start byte and its length byte, and a frame longer than
   * 5 bytes is an RC frame.
   */
  predicate Checked(s: Decoder)
    requires Wf(s)
  {
    && 3 <= s.frameLen <= FrameMaxLen && Crc(s.buf[..s.frameLen]) == 0
    && s.buf[0] as bv16 == ByteBegin && s.buf[2] as int == s.frameLen
    && (s.frameLen > 5 ==> s.buf[4] == ByteRc)
  }

  /**
   * Every reachable state: a frame in capture is not ready, and a ready frame
   * has been validated (which also means the baud rate has been confirmed).
   */
  predicate Inv(s: Decoder)
  {
    && Wf(s)
    && (s.frameBegun ==> !s.frameDone && Capturing(s) && Headed(s))
    && (s.frameDone ==> s.baudValid && Checked(s))
  }

  /** Only a capture with a declared length of 0, 1 or 2 can fill the buffer. */
  lemma InvStoreInBounds(s: Decoder)
    requires Inv(s)
    ensures StoreInBounds(s) || (s.frameBegun && s.frameLen < 3 && s.framePos == FrameMaxLen)
  {
  }

  lemma InitialInv()
    ensures Inv(Initial())
  {
  }

  /**
   * The state between the store and the end-of-frame check: not ready, the
   * index just past the stored byte, the provisional length up to the length
   * byte, and a declared length still ahead, or 0, 1 or 2, while capturing;
   * the start and length bytes in place, the type byte too while capturing,
   * and an abort only just after the length or the type byte.
   */
  predicate Stored(t: Decoder)
  {
    && Wf(t) && !t.frameDone && 1 <= t.framePos <= FrameMaxLen
    && (t.framePos <= 2 ==> t.frameLen == FrameMinLen)
    && (t.frameBegun && 3 <= t.framePos ==> t.framePos <= t.frameLen <= FrameMaxLen || t.frameLen < 3)
    && t.buf[0] as bv16 == ByteBegin && (3 <= t.framePos ==> t.buf[2] as int == t.frameLen)
    && (t.frameBegun ==> Headed(t))
    && (!t.frameBegun ==> t.framePos <= 5)
  }

  /** Phase handling and store take a reachable state to a `Stored` one. */
  lemma StoreStored(s: Decoder, c: bv16)
    requires Inv(s) && StoreInBounds(s) && (s.frameBegun || c == ByteBegin)
    ensures Stored(Store(Dispatch(s, c), c))
  {
    DispatchEffect(s, c);
    StoreEffect(Dispatch(s, c), c);
    if !s.frameBegun {
      assert Dispatch(s, c).framePos == 0;
    } else if s.framePos == 2 {
      assert Dispatch(s, c).frameLen == Lo(c) as int;
    } else {
      assert Dispatch(s, c).frameLen == s.frameLen && Dispatch(s, c).framePos == s.framePos;
    }
  }

  /** The end-of-frame check takes a `Stored` state to a reachable one. */
  lemma FinishInv(t: Decoder)
    requires Stored(t)
    ensures Inv(Finish(t))
  {
    if t.framePos == t.frameLen {
      assert Finish(t).buf == t.buf && Finish(t).frameLen == t.frameLen;
    }
  }

  /** Each receive callback keeps the invariant, as long as it stores inside the buffer. */
  lemma DataReceiveInv(s: Decoder, c: bv16)
    requires Inv(s) && StoreInBounds(s)
    ensures Inv(DataReceive(s, c))
  {
    if s.frameBegun || c == ByteBegin {
      StoreStored(s, c);
      FinishInv(Store(Dispatch(s, c), c));
    }
  }

  lemma FrameCompleteInv(s: Decoder)
    requires Inv(s)
    ensures Inv(FrameComplete(s).1)
  {
  }

  lemma ReadRawRCInv(s: Decoder, chan: u8)
    requires Inv(s)
    ensures Inv(ReadRawRC(s, chan).1)
  {
  }

  /** Every state the serial port can drive the power-on decoder into satisfies the invariant. */
  lemma {:induction false} FeedInv(s: Decoder, bs: seq<bv8>)
    requires Inv(s)
    ensures Feed(s, bs).Some? ==> Inv(Feed(s, bs).value)
    decreases |bs|
  {
    if |bs| > 0 && StoreInBounds(s) {
      DataReceiveInv(s, bs[0] as bv16);
      FeedInv(DataReceive(s, bs[0] as bv16), bs[1..]);
    }
  }

  // ---------------------------------------------------------------------
  // Interleaved calls.
  // ---------------------------------------------------------------------

  /** One atomic call into the driver: a received character, a poll of the ready flag, or a channel read. */
  datatype Event = Rx(c: bv16) | Poll | Read(chan: u8)

  /**
   * The state after the interrupt and the main loop have made the calls
   * `es`, in that order, each one whole; `None` once a receive callback would
   * store outside the buffer.
   */
  function Run(s: Decoder, es: seq<Event>): (r: Option<Decoder>)
    requires Wf(s)
    ensures r.Some? ==> Wf(r.value)
    decreases |es|
  {
    if |es| == 0 then Some(s)
    else match es[0]
      case Rx(c) => if StoreInBounds(s) then Run(DataReceive(s, c), es[1..]) else None
      case Poll => Run(FrameComplete(s).1, es[1..])
      case Read(chan) => Run(ReadRawRC(s, chan).1, es[1..])
  }

  /** Any interleaving of callbacks, polls and reads keeps the invariant. */
  lemma {:induction false} RunInv(s: Decoder, es: seq<Event>)
    requires Inv(s)
    ensures Run(s, es).Some? ==> Inv(Run(s, es).value)
    decreases |es|
  {
    if |es| > 0 {
      match es[0]
      case Rx(c) =>
        if StoreInBounds(s) {
          DataReceiveInv(s, c);
          RunInv(DataReceive(s, c), es[1..]);
        }
      case Poll =>
        FrameCompleteInv(s);
        RunInv(FrameComplete(s).1, es[1..]);
      case Read(chan) =>
        ReadRawRCInv(s, chan);
        RunInv(ReadRawRC(s, chan).1, es[1..]);
    }
  }
}
