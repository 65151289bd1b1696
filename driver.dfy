/**
 * The driver itself: the module statics and the receive callback's local
 * statics as the fields of one object, the frame buffer as a 70-byte array
 * written in place.  Each method is one call of the C function of the same
 * name and is proved to move the object's state exactly as the matching
 * function of the decoder module moves a `Decoder` value.
 */
module ExbusDriver {
  import opened ExbusCrc
  import opened ExbusDecoder

  class Exbus {
    // Module statics.
    var frameDone: bool
    const buf: array<bv8>
    var junkChars: u16
    var baudValid: bool
    // Statics local to the receive callback.
    var frameBegun: bool
    var framePos: u8
    var frameLen: u8

    ghost predicate Valid()
      reads this
    {
      buf.Length == FrameMaxLen as int
    }

    /** The object's state as a decoder value. */
    ghost function Model(): Decoder
      reads this, buf
    {
      Decoder(frameDone, buf[..], junkChars, baudValid, frameBegun, framePos, frameLen)
    }

    /** Power-on: the zero-initialised statics. */
    constructor ()
      ensures Valid() && fresh(buf)
      ensures Model() == Initial()
    {
      frameDone := false;
      buf := new bv8[FrameMaxLen](_ => 0);
      junkChars := 0;
      baudValid := false;
      frameBegun := false;
      framePos := 0;
      frameLen := 0;
    }

    /**
     * The receive callback.  An idle decoder counts anything but the start
     * byte as junk and returns; otherwise the phase handling, the store and
     * the end-of-frame check run in turn, as the three stage methods below.
     * The caller must keep the write index inside the buffer, which a
     * declared length of 0, 1 or 2 does not (see the overrun lemmas).
     */
    method DataReceive(c: bv16)
      requires Valid() && StoreInBounds(Model())
      modifies this, buf
      ensures Valid()
      ensures Model() == ExbusDecoder.DataReceive(old(Model()), c)
    {
      if !frameBegun && c != ByteBegin {
        junkChars := Add16(junkChars, 1);
        return;
      }
      Phase(c);
      StoreChar(c);
      EndOfFrame();
    }

    /** Start byte, length byte and type byte handling. */
    method Phase(c: bv16)
      requires Valid() && (frameBegun || c == ByteBegin)
      modifies this
      ensures Valid()
      ensures Model() == Dispatch(old(Model()), c)
    {
      if !frameBegun {
        frameBegun := true;
        frameDone := false;
        framePos := 0;
        frameLen := FrameMinLen;
      } else if framePos == 2 {
        frameLen := Lo(c) as int;
        if frameLen > FrameMaxLen {
          frameBegun := false;
        }
      } else if framePos == 4 && Lo(c) != ByteRc {
        frameBegun := false;
      }
    }

    /** `exbusBuf[exbusFramePos++] = (uint8_t)c`. */
    method StoreChar(c: bv16)
      requires Valid() && framePos < FrameMaxLen
      modifies this, buf
      ensures Valid()
      ensures Model() == Store(old(Model()), c)
    {
      buf[framePos] := Lo(c);
      framePos := Inc8(framePos);
    }

    /** The end-of-frame check: the checksum over the declared length decides. */
    method EndOfFrame()
      requires Valid() && framePos <= FrameMaxLen
      modifies this
      ensures Valid()
      ensures Model() == Finish(old(Model()))
    {
      if framePos == frameLen {
        var crc := CrcGenerate(buf, frameLen);
        if crc == 0 {
          baudValid := true;
          frameDone := true;
        } else {
          junkChars := Add16(junkChars, frameLen);
        }
        frameBegun := false;
      }
    }

    /** The main loop's poll of the ready flag, with the junk reset of the baud retry. */
    method FrameComplete() returns (done: bool)
      requires Valid()
      modifies this
      ensures Valid()
      ensures (done, Model()) == ExbusDecoder.FrameComplete(old(Model()))
    {
      if frameDone {
        return true;
      } else if !baudValid && junkChars > JunkLimit {
        junkChars := 0;
      }
      return false;
    }

    /** One channel read, in microseconds; the first read after a frame consumes it. */
    method ReadRawRC(chan: u8) returns (data: u16)
      requires Valid()
      modifies this
      ensures Valid()
      ensures (data, Model()) == ExbusDecoder.ReadRawRC(old(Model()), chan)
      ensures data <= 8192
    {
      if chan < NumChannels && frameDone {
        frameDone := false;
        var b := 6 + chan * 2;
        var raw := Word(buf[b + 1], buf[b]);
        data := TicksToMicros(raw);
      } else {
        data := 0;
      }
    }
  }
}
