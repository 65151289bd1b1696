# Jeti EX Bus receiver decoder, in Dafny

This project models the EX Bus receiver driver of the flight controller
(`src/main/rx/exbus.c`) and proves properties of the model.
The receiver is a byte-at-a-time state machine fed by the serial port's
receive callback. It syncs on the start byte 0x3E and takes the declared
frame length from offset 2. At offset 4 it keeps only RC frames (type 0x31).
Every byte of a capture goes into a 70-byte buffer. When the write index reaches the
declared length, the frame is checked with CRC-16/CCITT, in its reflected
byte-serial form.

- A zero checksum raises the ready flag and confirms the baud rate.
- Any other checksum charges the frame length to a 16-bit junk counter.

The main loop polls the ready flag. That poll also resets the junk counter
when more than 1000 junk bytes have arrived and no frame has ever validated
(the place of a baud switch). The main loop then reads channels: a read takes
the little-endian tick count at offset 6 + 2·chan and rounds it from
1/8 µs to µs.

Modules, one per file:

- `crc.dfy`, `ExbusCrc`. The byte update in its three C stages, its fold, and
  the checksum loop as a method. Also the eight-step bit-serial reference
  with polynomial 0x8408, proved equal to the update. Then the properties the
  end-of-frame check relies on: the trailer residue, one-to-one stages, and
  detection of any single-byte error.
- `decoder.dfy`, `ExbusDecoder`. The driver state as a value (`Decoder`) and
  the constants from lines 37-44 of the source. Each of the three entry
  points is a function from state to state. `Feed` runs the receive callback
  over a byte sequence. The file also holds the invariant of every reachable
  state.
- `traces.dfy`, `ExbusTraces`. Single callbacks in each phase, and whole
  frames: valid ones, corrupted ones, filtered ones, back-to-back ones. Also
  junk runs, the baud-retry reset, channel reads after a frame, and the buffer
  overrun.
- `driver.dfy`, `ExbusDriver`. The driver as a class. Its fields are the
  module statics (lines 46-49) and the callback's local statics
  (lines 102-104). The buffer is a 70-element `array<bv8>` written in place.
  Each method is proved to change the object exactly as the matching
  `ExbusDecoder` function changes a `Decoder`, so every lemma about the value
  model holds for the object.

C semantics made explicit:

- `uint8_t` and `uint16_t` arithmetic wraps: `Inc8` and `Add16`.
- `(uint8_t)c` is `Lo`. The comparison `c == 0x3E` in the idle phase uses
  all 16 bits of `c`. The receive callback takes a 16-bit character; a byte
  from the serial port arrives as that byte zero-extended.
- `(data + 4) / 8` is computed in `int`, so it cannot wrap.
- Statics start at zero.

### Behaviour worth knowing

- **Filtered frames.** After an abort at the type byte (line 126), the rest
  of the frame is read in the idle phase. Each remaining byte other than 0x3E
  adds one to the junk counter, so a filtered frame does cost junk.
  `FilteredFrame` states exactly how much.
- **Oversize lengths.** The same holds for the bytes after an oversize length
  byte.
- **Frames inside the tail of an aborted frame.** Both aborts return to the
  idle phase, so a 0x3E later in the tail opens a new capture. That capture
  can complete and validate, and it raises the ready flag although the outer
  frame was discarded (`FilteredFrameCarriesFrame`). `FilteredTail` states
  that the tail meets an idle decoder exactly like fresh input.
- **Channels past the frame.** A read takes bytes `6 + 2·chan` and
  `7 + 2·chan` for every channel below 16, whatever the declared length.
  When these reach the checksum at the end of the frame, or go beyond it,
  the read returns checksum bytes or bytes left in the buffer by older
  frames. For the 29-byte frame of `ExampleChannelZero`, channel 10's high
  byte is the checksum's low byte, and channels 11 to 15 read the checksum's
  high byte and bytes past the frame. `ChannelsOfValidFrame` speaks only of
  channels inside the frame, and `Completed` leaves every buffer byte past
  the frame as it was.
- **Five-byte frames.** With a declared length of 5, the type byte is the
  last byte. The completion check at line 131 runs even when that byte is not
  0x31, so such a frame can validate or be charged as junk.
- **Short frames.** The minimum length of 7 (`EXBUS_FRAME_MINLEN`) is only
  the provisional length before the length byte arrives: any declared length
  from 3 to 70 is accepted, and lengths 3 to 6 complete, and can validate,
  like longer ones. A length of 3 completes on the length byte itself
  (`LengthByteCompletes`). `ReadyMeansValidated` gives 3..70 as the range of
  a ready frame, with the start byte at index 0 and the length at index 2;
  only a frame longer than 5 bytes is sure to carry type 0x31 at index 4.
- **Reads consume the frame.** A read clears the ready flag on the first
  channel read, so a second channel read in the same cycle returns 0.
- **Overrun.** Declared lengths 0, 1 and 2 pass the guard at line 122, and
  the write index has already passed them. With type byte 0x31, the index
  never meets the length again and runs past the end of the buffer. The
  receive callback therefore carries the precondition `StoreInBounds`: the
  write index is below 70. The model's invariant shows that only such short
  declared lengths can break it (`InvStoreInBounds`), and `OverrunWitness`
  gives the byte sequence that does.

## Model

| member | source | states |
|---|---|---|
| ExbusCrc.FoldIn | src/main/rx/exbus.c:58 | no contract of its own: the first stage, the data byte xor the register's low byte; `FoldInInjective` and `CrcUpdateIsBitSerial` carry its properties |
| ExbusCrc.Spread | src/main/rx/exbus.c:59 | no contract of its own: `data ^= data << 4` cut to 8 bits; `SpreadInjective` and `CrcUpdateIsBitSerial` carry its properties |
| ExbusCrc.Assemble | src/main/rx/exbus.c:60-61 | no contract of its own: the new register from the spread byte and the old high byte; `AssembleHi`, `AssembleLo` and `CrcUpdateIsBitSerial` carry its properties |
| ExbusCrc.CrcUpdate | src/main/rx/exbus.c:56-64 | no contract of its own: the three stages in order; `CrcUpdateIsBitSerial`, `UpdateInjectiveInData`, `UpdateInjectiveInRegister`, `UpdateZero` and `UpdateTrailer` carry its properties |
| ExbusCrc.CrcFold | src/main/rx/exbus.c:66-77 | no contract of its own: the left fold of `CrcUpdate` over a byte sequence, the value `CrcGenerate` is proved to compute; `CrcFoldAppend` and `CrcFoldInjective` carry its properties |
| ExbusCrc.Crc | src/main/rx/exbus.c:66-77 | no contract of its own: the fold from register 0, as the end-of-frame check calls it; `CrcResidue`, `CrcAcceptsExactlyTrailer`, `ByteErrorDetected` and `CheckValue` carry its properties |
| ExbusCrc.CrcGenerate | src/main/rx/exbus.c:66-77 | the `while(len--)` loop returns the left fold of the byte update over `data[0..len)` from register 0; an empty buffer gives 0 |
| ExbusCrc.CrcUpdateIsBitSerial | src/main/rx/exbus.c:56-64 | the byte-serial update equals xor-ing the byte in and then eight LSB-first shift-and-divide steps with the reflected polynomial 0x8408 (CRC-16/CCITT) |
| ExbusCrc.UpdateInjectiveInData | src/main/rx/exbus.c:56-64 | with the register fixed, two data bytes that give the same new register are equal |
| ExbusCrc.UpdateInjectiveInRegister | src/main/rx/exbus.c:56-64 | with the data byte fixed, two registers that give the same new register are equal |
| ExbusCrc.UpdateHighZero | src/main/rx/exbus.c:56-64 | the new register's high byte is 0 exactly when the data byte is the old register's low byte |
| ExbusCrc.UpdateOwnLow | src/main/rx/exbus.c:56-64 | feeding the register its own low byte moves its high byte into the low byte |
| ExbusCrc.UpdateZero | src/main/rx/exbus.c:56-64 | an update gives 0 exactly when the data byte is the register's low byte and its high byte is 0 |
| ExbusCrc.UpdateTrailer | src/main/rx/exbus.c:56-64 | two updates give 0 exactly when the two bytes are the register's low byte and then its high byte |
| ExbusCrc.CrcFoldAppend | src/main/rx/exbus.c:66-77 | folding over a concatenation is folding over the first part and then the second |
| ExbusCrc.CrcAppendOne | src/main/rx/exbus.c:66-77 | the checksum of a sequence plus one byte is one update of the sequence's checksum |
| ExbusCrc.CrcAppendTwo | src/main/rx/exbus.c:66-77 | the checksum of a sequence plus two bytes is two updates of the sequence's checksum |
| ExbusCrc.CrcAcceptsExactlyTrailer | src/main/rx/exbus.c:133 | a sequence plus two trailer bytes passes the zero test exactly when the trailer is the low byte and then the high byte of the sequence's checksum |
| ExbusCrc.CrcResidue | src/main/rx/exbus.c:133 | appending the checksum's low byte and then its high byte gives checksum 0 |
| ExbusCrc.CrcFoldInjective | src/main/rx/exbus.c:66-77 | folding the same bytes from two registers gives equal results exactly when the registers are equal |
| ExbusCrc.ByteErrorDetected | src/main/rx/exbus.c:133 | changing any one byte by a nonzero xor mask changes the checksum |
| ExbusCrc.SingleBitFlipDetected | src/main/rx/exbus.c:133 | flipping one bit of a sequence whose checksum is 0 gives a nonzero checksum |
| ExbusCrc.CheckValue | src/main/rx/exbus.c:56-77 | the checksum of the ASCII digits "123456789" is 0x2189, the check value of the reflected CRC-16/CCITT with initial value 0 |
| ExbusDecoder.Add16 | src/main/rx/exbus.c:137 | the junk counter's `uint16_t` addition is addition mod 2^16 |
| ExbusDecoder.Inc8 | src/main/rx/exbus.c:129 | the write index's `uint8_t` increment is increment mod 2^8 |
| ExbusDecoder.Initial | src/main/rx/exbus.c:46-49 | power-on: 70-byte buffer, idle, ready flag, baud flag and junk counter zero |
| ExbusDecoder.Dispatch | src/main/rx/exbus.c:106-127 | no contract of its own: the phase handling before the store; `DispatchEffect` carries its properties |
| ExbusDecoder.DispatchEffect | src/main/rx/exbus.c:106-127 | phase handling leaves the buffer, junk counter and baud flag alone; the start byte opens a capture at index 0 with the ready flag down; a capture ends only at index 2, exactly when the declared length exceeds 70, or at index 4, exactly when the type is not 0x31 |
| ExbusDecoder.Store | src/main/rx/exbus.c:129 | no contract of its own: the store and index increment; `StoreEffect` carries its properties |
| ExbusDecoder.StoreEffect | src/main/rx/exbus.c:129 | the low byte of the character lands at the write index, the index advances by one without wrapping, and no other byte or field changes |
| ExbusDecoder.Finish | src/main/rx/exbus.c:131-141 | no contract of its own: the end-of-frame check; `FinishEffect`, `CompletionStep` and `FinishInv` carry its properties |
| ExbusDecoder.FinishEffect | src/main/rx/exbus.c:131-141 | nothing happens unless the index meets the declared length; then the capture ends, both flags rise exactly when the checksum is 0, otherwise the length is charged as junk, and the buffer is never touched |
| ExbusDecoder.StoreStored | src/main/rx/exbus.c:106-129 | phase handling and store take a reachable state to one with the start and length bytes in place, the type byte in place while capturing, and an abort only just after the length or type byte |
| ExbusDecoder.FinishInv | src/main/rx/exbus.c:131-141 | the end-of-frame check takes such a state back to a reachable one |
| ExbusDecoder.DataReceive | src/main/rx/exbus.c:100-142 | one receive callback, under the precondition that the write index is inside the buffer; the buffer stays 70 bytes |
| ExbusDecoder.FrameComplete | src/main/rx/exbus.c:144-154 | returns exactly the ready flag; when the flag is down, no frame has validated and more than 1000 junk bytes have arrived, the junk counter becomes 0 and nothing else changes; in every other case the state is unchanged |
| ExbusDecoder.Word | src/main/rx/exbus.c:167 | the shift-and-or of two bytes is high·256 + low |
| ExbusDecoder.RawChannel | src/main/rx/exbus.c:166-167 | channel `chan` is the little-endian word at indices 6 + 2·chan and 7 + 2·chan, both at most 37 |
| ExbusDecoder.TicksToMicros | src/main/rx/exbus.c:169 | rounds 1/8 µs ticks to the nearest µs; computed in `int`, so the result is at most 8192 |
| ExbusDecoder.ReadRawRC | src/main/rx/exbus.c:156-175 | returns at most 8192; with `chan >= 16` or the ready flag down it returns 0 and changes nothing; otherwise it clears only the ready flag and returns `(buf[7+2·chan]·256 + buf[6+2·chan] + 4) / 8` |
| ExbusDecoder.ReadRawRCReadsOnlyChannel | src/main/rx/exbus.c:162-167 | a read depends only on the ready flag and the two bytes of its channel |
| ExbusDecoder.Feed | src/main/rx/exbus.c:100-142 | the serial port delivering a byte sequence, one callback per byte; `None` once a store would fall outside the buffer |
| ExbusDecoder.InvStoreInBounds | src/main/rx/exbus.c:119-131 | in a reachable state, the write index can reach the end of the buffer only during a capture with a declared length of 0, 1 or 2 |
| ExbusDecoder.InitialInv | src/main/rx/exbus.c:46-49 | the power-on state satisfies the invariant |
| ExbusDecoder.DataReceiveInv | src/main/rx/exbus.c:100-142 | a receive callback keeps the invariant: a capture in progress is not ready and holds the header bytes it has passed; a ready frame has the declared length 3..70, checksum 0, 0x3E at index 0, its length at index 2, type 0x31 at index 4 when longer than 5 bytes, and the baud flag set |
| ExbusDecoder.FrameCompleteInv | src/main/rx/exbus.c:144-154 | a poll keeps the invariant |
| ExbusDecoder.ReadRawRCInv | src/main/rx/exbus.c:156-175 | a channel read keeps the invariant |
| ExbusDecoder.FeedInv | src/main/rx/exbus.c:100-142 | any byte sequence keeps the invariant |
| ExbusDecoder.Run | src/main/rx/exbus.c:100-175 | receive callbacks, polls and reads in any order, each call whole; `None` once a store would fall outside the buffer |
| ExbusDecoder.RunInv | src/main/rx/exbus.c:100-175 | any interleaving of callbacks, polls and reads keeps the invariant |
| ExbusTraces.IdleJunkByte | src/main/rx/exbus.c:106-117 | idle, any character but 0x3E adds 1 (mod 2^16) to the junk counter and changes nothing else, the buffer included |
| ExbusTraces.IdleStartByte | src/main/rx/exbus.c:106-129 | idle, 0x3E starts a capture: ready flag down, `buf[0] = 0x3E`, position 1, provisional length 7, nothing else changed |
| ExbusTraces.OversizeLengthAborts | src/main/rx/exbus.c:119-129 | a length byte above 70 is stored at index 2 and returns to idle with no junk charged, so nothing at index 3 or above is written; the next 0x3E starts a fresh frame |
| ExbusTraces.FilteredTypeAborts | src/main/rx/exbus.c:124-141 | a type byte other than 0x31 is stored and returns to idle, leaving the ready flag, baud flag and junk counter alone, except when the declared length is 5, where the checksum decides |
| ExbusTraces.CompletionStep | src/main/rx/exbus.c:131-141 | the byte that meets the declared length returns to idle; on checksum 0 both flags go up, otherwise the length is added to the junk counter and the ready flag stays down |
| ExbusTraces.LengthByteCompletes | src/main/rx/exbus.c:119-141 | a declared length of 3 ends the frame on the length byte: back to idle, and either both flags go up or 3 is added to the junk counter |
| ExbusTraces.EndOfFrameIsIdle | src/main/rx/exbus.c:131-140 | after any callback, a position equal to the declared length means idle |
| ExbusTraces.BaudValidSticky | src/main/rx/exbus.c:134 | no callback, poll or read ever clears the baud flag |
| ExbusTraces.NoResetAfterValidFrame | src/main/rx/exbus.c:148-150 | once a frame has validated, a poll changes nothing |
| ExbusTraces.ReadConsumesFrame | src/main/rx/exbus.c:162-163 | after a read that delivers data, every read of any channel returns 0 and changes nothing |
| ExbusTraces.ReadyMeansValidated | src/main/rx/exbus.c:106-136 | from power-on, whenever the ready flag is up, the buffer starts with a frame of 3..70 bytes with checksum 0, starting 0x3E, with its length at index 2 and, when longer than 5 bytes, type 0x31 at index 4; and the baud flag is up |
| ExbusTraces.ReadyMeansValidatedRun | src/main/rx/exbus.c:106-175 | the same after any interleaving of callbacks, polls and reads from power-on |
| ExbusTraces.FeedAppend | src/main/rx/exbus.c:100-142 | feeding a concatenation is feeding the parts in turn |
| ExbusTraces.CaptureFirst | src/main/rx/exbus.c:106-129 | the start byte opens the capture of a frame |
| ExbusTraces.CaptureNext | src/main/rx/exbus.c:119-131 | a byte that is not the last, given a length that fits and the RC type, is appended to the captured prefix |
| ExbusTraces.StoreLast | src/main/rx/exbus.c:119-129 | storing a frame's last byte completes the capture; only a 5-byte frame with a non-RC type has its phase flag cleared by it |
| ExbusTraces.CaptureLast | src/main/rx/exbus.c:131-141 | a frame's last byte completes it, giving `Completed` |
| ExbusTraces.FrameNextByte | src/main/rx/exbus.c:100-142 | each byte of a well-shaped frame moves the capture one byte on, and the last byte completes it |
| ExbusTraces.FrameRest | src/main/rx/exbus.c:100-142 | the rest of a well-shaped frame takes a partial capture to `Completed` |
| ExbusTraces.FrameOutcome | src/main/rx/exbus.c:100-142 | an idle decoder fed a well-shaped frame ends idle, with the frame at the front of the buffer; it is ready and baud-valid when the checksum is 0, and otherwise the length is charged as junk |
| ExbusTraces.TrailerFrameReady | src/main/rx/exbus.c:131-136 | a frame ending in its checksum's low and high bytes raises the ready and baud flags, leaves the junk counter alone and sits at the front of the buffer |
| ExbusTraces.CorruptedFrameRejected | src/main/rx/exbus.c:131-137 | flipping one bit of a valid frame, outside the start, length and type bytes, keeps the ready flag down and adds exactly the frame length to the junk counter |
| ExbusTraces.LatestFrameWins | src/main/rx/exbus.c:108-136 | with two frames back to back and no read between, the later one alone decides the ready flag and the buffer front |
| ExbusTraces.JunkRun | src/main/rx/exbus.c:106-117 | idle, N bytes none of which is 0x3E add N (mod 2^16) to the junk counter and change nothing else |
| ExbusTraces.BaudRetryFires | src/main/rx/exbus.c:144-154 | with no frame ever validated, 1001 junk bytes make the next poll return false and reset the counter to 0 |
| ExbusTraces.BaudRetryWaits | src/main/rx/exbus.c:144-154 | 999 further junk bytes after that reset make a poll return false and change nothing, so no second reset happens |
| ExbusTraces.FilteredTypeByte | src/main/rx/exbus.c:124-131 | in a frame longer than 5 bytes, a non-RC type byte is stored and ends the capture |
| ExbusTraces.FilteredHeaderRest | src/main/rx/exbus.c:119-131 | the header of a filtered frame takes a partial capture to idle at position 5 |
| ExbusTraces.FilteredTail | src/main/rx/exbus.c:106-131 | after a non-RC type byte in a frame longer than 5 bytes, feeding the rest of the frame is feeding it to an idle decoder at position 5 |
| ExbusTraces.FilteredFrame | src/main/rx/exbus.c:106-131 | a non-RC frame longer than 5 bytes, with no 0x3E after its type byte, leaves the ready flag down and the baud flag alone; each of its bytes after the type byte is counted as junk |
| ExbusTraces.FilteredFrameCarriesFrame | src/main/rx/exbus.c:106-136 | a valid frame placed right after the type byte of a filtered frame is captured, raises the ready and baud flags and sits at the front of the buffer |
| ExbusTraces.ChannelsOfValidFrame | src/main/rx/exbus.c:156-175 | after a valid frame, a read of a channel it holds returns that channel's little-endian tick count from the frame, rounded to µs, and clears the ready flag |
| ExbusTraces.ExampleChannelZero | src/main/rx/exbus.c:156-175 | a 29-byte RC frame whose channel 0 bytes are 0xF8 0x0F (4088 ticks) reads 511 µs on channel 0 |
| ExbusTraces.RunOff | src/main/rx/exbus.c:119-131 | with a declared length of 0, 1 or 2 and type 0x31, the write index runs up to 70 and the next store falls outside the buffer |
| ExbusTraces.OverrunWitness | src/main/rx/exbus.c:119-131 | the bytes 0x3E, any byte, a length 0..2, any byte, 0x31, and then 66 more bytes drive every decoder fed from idle to an out-of-bounds store |
| ExbusDriver.Exbus.constructor | src/main/rx/exbus.c:46-49 | a fresh 70-byte buffer, with the object's state equal to the power-on state |
| ExbusDriver.Exbus.DataReceive | src/main/rx/exbus.c:100-142 | the callback changes the object exactly as `ExbusDecoder.DataReceive` changes its state |
| ExbusDriver.Exbus.Phase | src/main/rx/exbus.c:106-127 | the start, length and type handling, as `ExbusDecoder.Dispatch` |
| ExbusDriver.Exbus.StoreChar | src/main/rx/exbus.c:129 | the in-place store and index increment, as `ExbusDecoder.Store` |
| ExbusDriver.Exbus.EndOfFrame | src/main/rx/exbus.c:131-141 | the end-of-frame check, running the checksum loop over the array, as `ExbusDecoder.Finish` |
| ExbusDriver.Exbus.FrameComplete | src/main/rx/exbus.c:144-154 | the poll returns and changes what `ExbusDecoder.FrameComplete` says |
| ExbusDriver.Exbus.ReadRawRC | src/main/rx/exbus.c:156-175 | the read returns and changes what `ExbusDecoder.ReadRawRC` says, and returns at most 8192 |

## Left out

- `exbusInit` (src/main/rx/exbus.c:87-97) and
  `exbusUpdateSerialRxFunctionConstraint` (src/main/rx/exbus.c:79-85) are left
  out. They only wire the driver to the serial port, the callback pointer and
  the constant baud and feature settings. What is left of them in the model:
  - the channel count 16, which is `NumChannels`;
  - the baud constants, `BaudLow` and `BaudHigh`.
  
  Success of `exbusInit` means only that the port handle is non-NULL, and
  there is no port in this model.
- The baud-rate switch itself is left out. It is a TODO in the source
  (line 151); the model only performs the junk reset.
- Preemption inside a call is left out. `Run` interleaves the receive
  interrupt and the main loop only at call boundaries, so torn reads of a
  buffer being overwritten are not modelled.
- Telemetry and Jetibox frames are left out. The driver filters them out and
  never decodes them.
- `src/main/target/SPRACINGF3NEO/SPRACINGF3NEO_CUSTOM1.h` is not part of this
  model. It holds only compile-time feature switches.
- The serial port is left out, as an input: `Feed` takes the received bytes
  as a sequence.
- `exbusCrcGenerate` walks the buffer with a pointer; the model walks it with
  an index.
- ExbusDecoder.DataReceive: does not model the out-of-bounds write. C leaves
  it undefined, and the (non-)safety of the surrounding memory cannot be
  stated. The model instead requires the write index to be inside the
  buffer, and `Feed` gives `None` at that point.
- ExbusDriver.Exbus.DataReceive: the source's single function is written as
  the idle-junk early return followed by three stage methods (phase, store,
  end-of-frame check). The statements are the same and in the same order.
