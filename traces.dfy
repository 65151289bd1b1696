/**
 * What the receiver does with whole byte sequences: single callbacks in each
 * phase, complete frames, junk runs, the baud-retry reset, channel reads
 * after a frame and the buffer overrun a short declared length leads to.
 */
module ExbusTraces {
  import opened ExbusCrc
  import opened ExbusDecoder

  // ---------------------------------------------------------------------
  // Single callbacks.
  // ---------------------------------------------------------------------

  /** While idle, a character other than the start byte only counts as junk (mod 2^16). */
  lemma IdleJunkByte(s: Decoder, c: bv16)
    requires Wf(s) && !s.frameBegun && c != ByteBegin
    ensures var r := DataReceive(s, c);
      r.junkChars == (s.junkChars + 1) % 0x1_0000 && r == s.(junkChars := r.junkChars)
  {
  }

  /**
   * While idle, the start byte opens a frame: ready flag down, the byte at
   * index 0, position 1, provisional length 7; nothing else changes.
   */
  lemma IdleStartByte(s: Decoder)
    requires Wf(s) && !s.frameBegun
    ensures var r := DataReceive(s, ByteBegin);
      && r.frameBegun && !r.frameDone && r.framePos == 1 && r.frameLen == FrameMinLen
      && r.buf == s.buf[0 := 0x3E]
      && r.junkChars == s.junkChars && r.baudValid == s.baudValid
  {
  }

  /**
   * A declared length above 70 ends the capture at once: the length byte is
   * still stored at index 2, but no junk is charged, the ready flag stays
   * down and the next byte is read in the idle phase, where a start byte
   * opens a fresh frame.
   */
  lemma OversizeLengthAborts(s: Decoder, c: bv16)
    requires Inv(s) && s.frameBegun && s.framePos == 2 && Lo(c) as int > FrameMaxLen
    ensures var r := DataReceive(s, c);
      && !r.frameBegun && !r.frameDone
      && r.buf == s.buf[2 := Lo(c)] && r.framePos == 3 && r.frameLen == Lo(c) as int
      && r.junkChars == s.junkChars && r.baudValid == s.baudValid
    ensures var r := DataReceive(DataReceive(s, c), ByteBegin);
      && r.frameBegun && r.framePos == 1 && r.frameLen == FrameMinLen
      && r.buf == s.buf[2 := Lo(c)][0 := 0x3E]
  {
  }

  /**
   * A type byte other than 0x31 ends the capture without charging junk or
   * raising the ready flag, except for a declared length of 5: there the
   * position meets the length on this very byte and the checksum decides.
   */
  lemma FilteredTypeAborts(s: Decoder, c: bv16)
    requires Wf(s) && s.frameBegun && s.framePos == 4 && Lo(c) != ByteRc
    ensures var r := DataReceive(s, c);
      && !r.frameBegun && r.buf == s.buf[4 := Lo(c)] && r.framePos == 5
      && (s.frameLen != 5 ==> r.frameDone == s.frameDone && r.junkChars == s.junkChars && r.baudValid == s.baudValid)
      && (s.frameLen == 5 ==>
            var ok := Crc(r.buf[..5]) == 0;
            && r.frameDone == (ok || s.frameDone)
            && r.baudValid == (ok || s.baudValid)
            && r.junkChars == if ok then s.junkChars else Add16(s.junkChars, 5))
  {
  }

  /**
   * The byte that brings the position to the declared length ends the
   * frame: back to idle, and either both flags go up (checksum 0) or the
   * length is charged to the junk counter (anything else).
   */
  lemma CompletionStep(s: Decoder, c: bv16)
    requires Inv(s) && s.frameBegun && 3 <= s.framePos && s.framePos + 1 == s.frameLen
    ensures var r := DataReceive(s, c);
      var ok := Crc(r.buf[..r.frameLen]) == 0;
      && !r.frameBegun && r.frameLen == s.frameLen && r.buf == s.buf[s.framePos := Lo(c)]
      && r.frameDone == ok
      && r.baudValid == (s.baudValid || ok)
      && r.junkChars == if ok then s.junkChars else Add16(s.junkChars, s.frameLen)
  {
  }

  /**
   * A declared length of 3 is met by the length byte itself: the frame ends
   * on it and the checksum over the three bytes decides, as for any other
   * last byte.
   */
  lemma LengthByteCompletes(s: Decoder, c: bv16)
    requires Inv(s) && s.frameBegun && s.framePos == 2 && Lo(c) == 3
    ensures var r := DataReceive(s, c);
      var ok := Crc(r.buf[..3]) == 0;
      && !r.frameBegun && r.frameLen == 3 && r.framePos == 3 && r.buf == s.buf[2 := Lo(c)]
      && r.frameDone == ok
      && r.baudValid == (s.baudValid || ok)
      && r.junkChars == if ok then s.junkChars else Add16(s.junkChars, 3)
  {
  }

  /** Whatever the character, once the position meets the declared length the decoder is idle. */
  lemma EndOfFrameIsIdle(s: Decoder, c: bv16)
    requires Wf(s) && StoreInBounds(s)
    ensures var r := DataReceive(s, c); r.framePos == r.frameLen ==> !r.frameBegun
  {
  }

  /** No call ever lowers the baud-valid flag. */
  lemma BaudValidSticky(s: Decoder, c: bv16, chan: u8)
    requires Wf(s) && StoreInBounds(s) && s.baudValid
    ensures DataReceive(s, c).baudValid
    ensures FrameComplete(s).1.baudValid && ReadRawRC(s, chan).1.baudValid
  {
  }

  /** Once a frame has validated, polling never again resets the junk counter. */
  lemma NoResetAfterValidFrame(s: Decoder)
    requires s.baudValid
    ensures FrameComplete(s).1 == s
  {
  }

  /** A read that delivers data consumes the frame: every later read, of any channel, returns 0. */
  lemma ReadConsumesFrame(s: Decoder, chan: u8, next: u8)
    requires Wf(s) && s.frameDone && chan < NumChannels
    ensures var t := ReadRawRC(s, chan).1; ReadRawRC(t, next) == (0, t)
  {
  }

  // ---------------------------------------------------------------------
  // Reachable states.
  // ---------------------------------------------------------------------

  /**
   * From power-on, whenever the ready flag is up the buffer starts with a
   * frame of 3 to 70 bytes whose checksum is 0, and the baud rate counts as
   * confirmed.
   */
  lemma ReadyMeansValidated(bs: seq<bv8>)
    requires Feed(Initial(), bs).Some? && Feed(Initial(), bs).value.frameDone
    ensures var t := Feed(Initial(), bs).value;
      && 3 <= t.frameLen <= FrameMaxLen && Crc(t.buf[..t.frameLen]) == 0 && t.baudValid
      && t.buf[0] as bv16 == ByteBegin && t.buf[2] as int == t.frameLen
      && (t.frameLen > 5 ==> t.buf[4] == ByteRc)
  {
    InitialInv();
    FeedInv(Initial(), bs);
  }

  /**
   * The same for any interleaving of receive callbacks, polls and reads:
   * whenever a poll would report a frame, or a read would deliver one, the
   * buffer starts with a validated frame.
   */
  lemma ReadyMeansValidatedRun(es: seq<Event>)
    requires Run(Initial(), es).Some? && Run(Initial(), es).value.frameDone
    ensures var t := Run(Initial(), es).value;
      && 3 <= t.frameLen <= FrameMaxLen && Crc(t.buf[..t.frameLen]) == 0 && t.baudValid
      && t.buf[0] as bv16 == ByteBegin && t.buf[2] as int == t.frameLen
      && (t.frameLen > 5 ==> t.buf[4] == ByteRc)
  {
    InitialInv();
    RunInv(Initial(), es);
  }

  /** Feeding a concatenation is feeding the parts in turn. */
  lemma {:induction false} FeedAppend(s: Decoder, a: seq<bv8>, b: seq<bv8>)
    requires Wf(s)
    ensures Feed(s, a + b) == if Feed(s, a).Some? then Feed(Feed(s, a).value, b) else None
    decreases |a|
  {
    if |a| == 0 {
      assert a + b == b;
    } else if StoreInBounds(s) {
      assert (a + b)[1..] == a[1..] + b;
      FeedAppend(DataReceive(s, a[0] as bv16), a[1..], b);
    }
  }

  // ---------------------------------------------------------------------
  // Captures, byte by byte.
  // ---------------------------------------------------------------------

  /** Start byte, and a declared length equal to the frame's own length, in 3..70. */
  predicate HeaderShape(f: seq<bv8>)
  {
    && 3 <= |f| <= FrameMaxLen as int
    && f[0] == 0x3E && f[2] as int == |f|
  }

  /**
   * A frame the assembler takes in full: the header, and the RC type byte
   * when the frame reaches past index 4 (a 5-byte frame ends on its type
   * byte, whatever it is).
   */
  predicate FrameShape(f: seq<bv8>)
  {
    HeaderShape(f) && (|f| > 5 ==> f[4] == ByteRc)
  }

  /**
   * The decoder after the first `k` bytes of input `f`, all kept, started
   * from idle state `s`: capturing, with the provisional length up to the
   * length byte and `f[2]` after it.
   */
  function Partial(s: Decoder, f: seq<bv8>, k: nat): (r: Decoder)
    requires Wf(s) && 1 <= k <= |f| && k <= FrameMaxLen as int
    ensures Wf(r)
  {
    s.(frameDone := false, frameBegun := true, framePos := k,
       frameLen := if k <= 2 then FrameMinLen else f[2] as int, buf := f[..k] + s.buf[k..])
  }

  /**
   * The decoder after all of frame `f`: idle, the frame at the front of the
   * buffer and the older bytes behind it; ready and baud-valid when the
   * checksum is 0, the length charged as junk otherwise.
   */
  function Completed(s: Decoder, f: seq<bv8>): (r: Decoder)
    requires Wf(s) && 3 <= |f| <= FrameMaxLen as int
    ensures Wf(r) && r.buf[..|f|] == f
  {
    var ok := Crc(f) == 0;
    s.(buf := f + s.buf[|f|..], framePos := |f|, frameLen := |f|, frameBegun := false,
       frameDone := ok, baudValid := s.baudValid || ok,
       junkChars := if ok then s.junkChars else Add16(s.junkChars, |f|))
  }

  lemma LoOfByte(b: bv8)
    ensures Lo(b as bv16) == b
  {
  }

  /** The start byte opens the capture of `f`. */
  lemma CaptureFirst(s: Decoder, f: seq<bv8>)
    requires Wf(s) && !s.frameBegun && 1 <= |f| && f[0] == 0x3E
    ensures DataReceive(s, f[0] as bv16) == Partial(s, f, 1)
  {
    LoOfByte(f[0]);
    assert f[..1] + s.buf[1..] == s.buf[0 := f[0]];
  }

  /** Storing byte `k` of the input extends the captured prefix by one. */
  lemma StoreNext(s: Decoder, f: seq<bv8>, k: nat)
    requires Wf(s) && 1 <= k < |f| && k < FrameMaxLen as int
    ensures Store(Partial(s, f, k), f[k] as bv16).buf == f[..k + 1] + s.buf[k + 1..]
  {
    LoOfByte(f[k]);
    assert (f[..k] + s.buf[k..])[k := f[k]] == f[..k + 1] + s.buf[k + 1..];
  }

  /** Bytes 1 and 2: the length byte, when it fits the buffer, becomes the declared length. */
  lemma AdvanceLow(s: Decoder, f: seq<bv8>, k: nat)
    requires Wf(s) && 1 <= k <= 2 && k < |f|
    requires k == 2 ==> f[2] as int <= FrameMaxLen as int
    ensures Store(Dispatch(Partial(s, f, k), f[k] as bv16), f[k] as bv16) == Partial(s, f, k + 1)
  {
    LoOfByte(f[k]);
    StoreNext(s, f, k);
  }

  /** Bytes from 3 on, an RC type byte included, change no phase. */
  lemma AdvanceHigh(s: Decoder, f: seq<bv8>, k: nat)
    requires Wf(s) && 3 <= k < |f| && k < FrameMaxLen as int
    requires k == 4 ==> f[4] == ByteRc
    ensures Store(Dispatch(Partial(s, f, k), f[k] as bv16), f[k] as bv16) == Partial(s, f, k + 1)
  {
    LoOfByte(f[k]);
    assert Dispatch(Partial(s, f, k), f[k] as bv16) == Partial(s, f, k);
    StoreNext(s, f, k);
  }

  /** The type byte is stored whatever it is; anything but the RC type clears the phase flag. */
  lemma AdvanceType(s: Decoder, f: seq<bv8>)
    requires Wf(s) && 5 <= |f|
    ensures Store(Dispatch(Partial(s, f, 4), f[4] as bv16), f[4] as bv16) == Partial(s, f, 5).(frameBegun := f[4] == ByteRc)
  {
    LoOfByte(f[4]);
    StoreNext(s, f, 4);
  }

  /**
   * A byte that neither ends the capture nor aborts it: every position but
   * the last of a declared length, with a length that fits and the RC type.
   */
  lemma CaptureNext(s: Decoder, f: seq<bv8>, k: nat)
    requires Wf(s) && 1 <= k < |f| && k < FrameMaxLen as int
    requires k == 2 ==> f[2] as int <= FrameMaxLen as int
    requires k == 4 ==> f[4] == ByteRc
    requires k >= 2 ==> k + 1 != f[2] as int
    ensures DataReceive(Partial(s, f, k), f[k] as bv16) == Partial(s, f, k + 1)
  {
    if k <= 2 {
      AdvanceLow(s, f, k);
    } else {
      AdvanceHigh(s, f, k);
    }
  }

  /** The checksum on a full capture gives `Completed`, whatever the phase flag says. */
  lemma FinishFrame(s: Decoder, f: seq<bv8>, begun: bool)
    requires Wf(s) && HeaderShape(f)
    ensures Finish(Partial(s, f, |f|).(frameBegun := begun)) == Completed(s, f)
  {
    assert f[..|f|] == f;
    assert (f + s.buf[|f|..])[..|f|] == f;
  }

  /** Storing the last byte of a frame completes the capture; only a 5-byte frame can have its phase flag cleared on it. */
  lemma StoreLast(s: Decoder, f: seq<bv8>)
    requires Wf(s) && FrameShape(f)
    ensures var c := f[|f| - 1] as bv16;
      Store(Dispatch(Partial(s, f, |f| - 1), c), c) == Partial(s, f, |f|).(frameBegun := |f| != 5 || f[4] == ByteRc)
  {
    var k := |f| - 1;
    if k <= 2 {
      AdvanceLow(s, f, k);
    } else if k == 4 {
      AdvanceType(s, f);
    } else {
      AdvanceHigh(s, f, k);
    }
  }

  /** The last byte of a frame ends it. */
  lemma CaptureLast(s: Decoder, f: seq<bv8>)
    requires Wf(s) && FrameShape(f)
    ensures DataReceive(Partial(s, f, |f| - 1), f[|f| - 1] as bv16) == Completed(s, f)
  {
    StoreLast(s, f);
    FinishFrame(s, f, |f| != 5 || f[4] == ByteRc);
  }

  // ---------------------------------------------------------------------
  // Whole frames.
  // ---------------------------------------------------------------------

  lemma FrameNextByte(s: Decoder, f: seq<bv8>, k: nat)
    requires Wf(s) && FrameShape(f) && 1 <= k < |f|
    ensures DataReceive(Partial(s, f, k), f[k] as bv16) ==
            if k + 1 < |f| then Partial(s, f, k + 1) else Completed(s, f)
  {
    if k + 1 < |f| {
      CaptureNext(s, f, k);
    } else {
      CaptureLast(s, f);
    }
  }

  /** Feeding a non-empty sequence inside the buffer is one callback, then the rest. */
  lemma FeedStep(s: Decoder, bs: seq<bv8>)
    requires Wf(s) && |bs| > 0 && StoreInBounds(s)
    ensures Feed(s, bs) == Feed(DataReceive(s, bs[0] as bv16), bs[1..])
  {
  }

  lemma {:induction false} FrameRest(s: Decoder, f: seq<bv8>, k: nat)
    requires Wf(s) && FrameShape(f) && 1 <= k < |f|
    ensures Feed(Partial(s, f, k), f[k..]) == Some(Completed(s, f))
    decreases |f| - k
  {
    var t := Partial(s, f, k);
    FeedStep(t, f[k..]);
    assert f[k..][0] == f[k] && f[k..][1..] == f[k + 1..];
    FrameNextByte(s, f, k);
    if k + 1 < |f| {
      FrameRest(s, f, k + 1);
    } else {
      assert f[k + 1..] == [];
    }
  }

  /** Feeding a well-shaped frame to an idle decoder yields exactly `Completed`. */
  lemma FrameOutcome(s: Decoder, f: seq<bv8>)
    requires Wf(s) && !s.frameBegun && FrameShape(f)
    ensures Feed(s, f) == Some(Completed(s, f))
  {
    CaptureFirst(s, f);
    FrameRest(s, f, 1);
  }

  /** A valid frame followed by its trailer (low byte, then high byte of the checksum) raises the ready flag. */
  lemma TrailerFrameReady(s: Decoder, p: seq<bv8>)
    requires Wf(s) && !s.frameBegun && FrameShape(p + [Lo(Crc(p)), Hi(Crc(p))])
    ensures var f := p + [Lo(Crc(p)), Hi(Crc(p))];
      && Feed(s, f).Some?
      && var t := Feed(s, f).value;
      && t.frameDone && t.baudValid && t.junkChars == s.junkChars
      && t.frameLen == |f| && t.buf[..|f|] == f
  {
    CrcResidue(p);
    FrameOutcome(s, p + [Lo(Crc(p)), Hi(Crc(p))]);
  }

  /**
   * Flipping one bit of a valid frame anywhere but in its start, length and
   * type bytes makes it fail: the ready flag stays down and the whole frame
   * length is charged to the junk counter.
   */
  lemma CorruptedFrameRejected(s: Decoder, f: seq<bv8>, i: nat, k: nat)
    requires Wf(s) && !s.frameBegun && FrameShape(f) && Crc(f) == 0
    requires 0 < i < |f| && i != 2 && i != 4 && k < 8
    ensures var g := f[i := f[i] ^ ((1 as bv8) << k)];
      && Feed(s, g).Some?
      && var t := Feed(s, g).value;
      && !t.frameDone && t.baudValid == s.baudValid
      && t.junkChars == (s.junkChars + |f|) % 0x1_0000
  {
    var g := f[i := f[i] ^ ((1 as bv8) << k)];
    assert FrameShape(g);
    SingleBitFlipDetected(f, i, k);
    FrameOutcome(s, g);
  }

  /**
   * Of two frames received back to back with no read in between, the later
   * one alone decides the ready flag and sits at the front of the buffer.
   */
  lemma LatestFrameWins(s: Decoder, f1: seq<bv8>, f2: seq<bv8>)
    requires Wf(s) && !s.frameBegun && FrameShape(f1) && FrameShape(f2)
    ensures Feed(s, f1 + f2) == Some(Completed(Completed(s, f1), f2))
    ensures var t := Completed(Completed(s, f1), f2);
      t.frameDone == (Crc(f2) == 0) && t.frameLen == |f2| && t.buf[..|f2|] == f2
  {
    FeedAppend(s, f1, f2);
    FrameOutcome(s, f1);
    FrameOutcome(Completed(s, f1), f2);
  }

  // ---------------------------------------------------------------------
  // Junk.
  // ---------------------------------------------------------------------

  /** None of the bytes is the start byte. */
  predicate NoStartByte(js: seq<bv8>)
  {
    forall i :: 0 <= i < |js| ==> js[i] != 0x3E
  }

  lemma NoStartByteTail(js: seq<bv8>)
    requires |js| > 0 && NoStartByte(js)
    ensures NoStartByte(js[1..])
  {
    forall i | 0 <= i < |js[1..]| ensures js[1..][i] != 0x3E {
      assert js[1..][i] == js[i + 1];
    }
  }

  /** While idle, a run of bytes none of which is the start byte adds its length to the junk counter (mod 2^16) and changes nothing else. */
  lemma {:induction false} JunkRun(s: Decoder, js: seq<bv8>)
    requires Wf(s) && !s.frameBegun && NoStartByte(js)
    ensures Feed(s, js) == Some(s.(junkChars := (s.junkChars + |js|) % 0x1_0000))
    decreases |js|
  {
    if |js| == 0 {
      assert s.(junkChars := (s.junkChars + |js|) % 0x1_0000) == s;
    } else {
      assert js[0] as bv16 != ByteBegin;
      NoStartByteTail(js);
      JunkRun(s.(junkChars := Add16(s.junkChars, 1)), js[1..]);
      assert (Add16(s.junkChars, 1) + (|js| - 1)) % 0x1_0000 == (s.junkChars + |js|) % 0x1_0000;
    }
  }

  /** On a link that has never validated a frame, 1001 junk bytes let the next poll reset the counter to 0. */
  lemma BaudRetryFires(s: Decoder, js: seq<bv8>)
    requires Wf(s) && !s.frameBegun && !s.frameDone && !s.baudValid && s.junkChars == 0
    requires |js| == 1001 && NoStartByte(js)
    ensures Feed(s, js) == Some(s.(junkChars := 1001))
    ensures FrameComplete(s.(junkChars := 1001)) == (false, s)
  {
    JunkRun(s, js);
    assert (s.junkChars + |js|) % 0x1_0000 == 1001;
    assert s.(junkChars := 1001).(junkChars := 0) == s;
  }

  /** After that reset, 999 further junk bytes are not enough for another. */
  lemma BaudRetryWaits(s: Decoder, js: seq<bv8>)
    requires Wf(s) && !s.frameBegun && !s.frameDone && !s.baudValid && s.junkChars == 0
    requires |js| == 999 && NoStartByte(js)
    ensures Feed(s, js) == Some(s.(junkChars := 999))
    ensures FrameComplete(s.(junkChars := 999)) == (false, s.(junkChars := 999))
  {
    JunkRun(s, js);
    assert (s.junkChars + |js|) % 0x1_0000 == 999;
  }

  // ---------------------------------------------------------------------
  // Filtered frames.
  // ---------------------------------------------------------------------

  /** A type byte other than RC ends the capture of a frame longer than 5 bytes, still stored. */
  lemma FilteredTypeByte(s: Decoder, f: seq<bv8>)
    requires Wf(s) && 5 < |f| && f[2] as int == |f| && f[4] != ByteRc
    ensures DataReceive(Partial(s, f, 4), f[4] as bv16) == Partial(s, f, 5).(frameBegun := false)
  {
    AdvanceType(s, f);
  }

  lemma {:induction false} FilteredHeaderRest(s: Decoder, f: seq<bv8>, k: nat)
    requires Wf(s) && HeaderShape(f) && 5 < |f| && f[4] != ByteRc && 1 <= k <= 4
    ensures Feed(Partial(s, f, k), f[k..5]) == Some(Partial(s, f, 5).(frameBegun := false))
    decreases 5 - k
  {
    assert f[k..5][1..] == f[k + 1..5];
    if k < 4 {
      CaptureNext(s, f, k);
      FilteredHeaderRest(s, f, k + 1);
    } else {
      FilteredTypeByte(s, f);
    }
  }

  /**
   * After a non-RC type byte in a frame longer than 5 bytes, the rest of the
   * frame meets an idle decoder, exactly like fresh input.
   */
  lemma FilteredTail(s: Decoder, f: seq<bv8>)
    requires Wf(s) && !s.frameBegun && HeaderShape(f) && |f| > 5 && f[4] != ByteRc
    ensures Feed(s, f) == Feed(Partial(s, f, 5).(frameBegun := false), f[5..])
  {
    CaptureFirst(s, f);
    assert f[..5][1..] == f[1..5];
    FilteredHeaderRest(s, f, 1);
    FeedAppend(s, f[..5], f[5..]);
    assert f[..5] + f[5..] == f;
  }

  /**
   * A telemetry or Jetibox frame (type byte other than 0x31, longer than 5
   * bytes) with no start byte after its type byte leaves the ready flag down,
   * but every byte after its type byte is counted as junk.
   */
  lemma FilteredFrame(s: Decoder, f: seq<bv8>)
    requires Wf(s) && !s.frameBegun && HeaderShape(f) && |f| > 5 && f[4] != ByteRc
    requires NoStartByte(f[5..])
    ensures Feed(s, f).Some?
    ensures var t := Feed(s, f).value;
      && !t.frameBegun && !t.frameDone && t.baudValid == s.baudValid
      && t.junkChars == (s.junkChars + |f| - 5) % 0x1_0000
  {
    FilteredTail(s, f);
    JunkRun(Partial(s, f, 5).(frameBegun := false), f[5..]);
  }

  /**
   * A filtered frame can carry a frame the assembler accepts: a valid frame
   * placed right after its type byte is captured from the tail and raises
   * the ready and baud flags.
   */
  lemma FilteredFrameCarriesFrame(s: Decoder, h: seq<bv8>, g: seq<bv8>)
    requires Wf(s) && !s.frameBegun && |h| == 5 && h[0] == 0x3E && h[4] != ByteRc
    requires FrameShape(g) && Crc(g) == 0 && |h| + |g| <= FrameMaxLen as int && h[2] as int == |h| + |g|
    ensures Feed(s, h + g).Some?
    ensures var t := Feed(s, h + g).value; t.frameDone && t.baudValid && t.buf[..|g|] == g
  {
    var f := h + g;
    assert f[0] == h[0] && f[2] == h[2] && f[4] == h[4];
    FilteredTail(s, f);
    assert f[5..] == g;
    FrameOutcome(Partial(s, f, 5).(frameBegun := false), g);
  }

  // ---------------------------------------------------------------------
  // Channel reads after a frame.
  // ---------------------------------------------------------------------

  /**
   * After a valid frame long enough to hold channel `chan`, reading it gives
   * that channel's little-endian tick count from the frame, rounded to
   * microseconds, and consumes the ready flag.
   */
  lemma ChannelsOfValidFrame(s: Decoder, f: seq<bv8>, chan: u8)
    requires Wf(s) && !s.frameBegun && FrameShape(f) && Crc(f) == 0
    requires chan < NumChannels && 8 + 2 * chan <= |f|
    ensures Feed(s, f).Some?
    ensures var t := Feed(s, f).value;
      && t.frameDone
      && ReadRawRC(t, chan) == ((f[7 + 2 * chan] as int * 256 + f[6 + 2 * chan] as int + 4) / 8, t.(frameDone := false))
  {
    FrameOutcome(s, f);
    var t := Completed(s, f);
    assert t.buf[6 + 2 * chan] == f[6 + 2 * chan] && t.buf[7 + 2 * chan] == f[7 + 2 * chan] by {
      assert t.buf[..|f|] == f;
    }
  }

  /** A 29-byte RC frame whose channel 0 bytes are 0xF8, 0x0F (4088 ticks) reads 511 microseconds on channel 0. */
  lemma ExampleChannelZero(s: Decoder, p: seq<bv8>)
    requires Wf(s) && !s.frameBegun && |p| == 27
    requires p[0] == 0x3E && p[2] == 29 && p[4] == 0x31 && p[6] == 0xF8 && p[7] == 0x0F
    ensures var f := p + [Lo(Crc(p)), Hi(Crc(p))];
      Feed(s, f).Some? && ReadRawRC(Feed(s, f).value, 0).0 == 511
  {
    var f := p + [Lo(Crc(p)), Hi(Crc(p))];
    assert f[0] == 0x3E && f[2] == 29 && f[4] == 0x31 && f[6] == 0xF8 && f[7] == 0x0F;
    CrcResidue(p);
    ChannelsOfValidFrame(s, f, 0);
  }

  // ---------------------------------------------------------------------
  // The buffer overrun.
  // ---------------------------------------------------------------------

  /** With a declared length of 0, 1 or 2 the index passes the length at once and never meets it again. */
  lemma {:induction false} RunOff(s: Decoder, f: seq<bv8>, k: nat)
    requires Wf(s) && |f| > FrameMaxLen as int && f[2] < 3 && f[4] == ByteRc && 1 <= k <= FrameMaxLen as int
    ensures Feed(Partial(s, f, k), f[k..]) == None
    decreases FrameMaxLen as int - k
  {
    if k < FrameMaxLen as int {
      assert f[k..][1..] == f[k + 1..];
      CaptureNext(s, f, k);
      RunOff(s, f, k + 1);
    }
  }

  /**
   * The length guard only rejects lengths above 70: an RC frame declaring
   * length 0, 1 or 2, followed by 66 more bytes, drives the write index to 70,
   * and the next store would fall outside the buffer.
   */
  lemma OverrunWitness(s: Decoder, a: bv8, len: bv8, b: bv8, rest: seq<bv8>)
    requires Wf(s) && !s.frameBegun && len < 3 && |rest| >= 66
    ensures Feed(s, [0x3E, a, len, b, 0x31] + rest) == None
  {
    var f := [0x3E, a, len, b, 0x31] + rest;
    assert f[0] == 0x3E && f[2] == len && f[4] == 0x31;
    CaptureFirst(s, f);
    RunOff(s, f, 1);
  }
}
