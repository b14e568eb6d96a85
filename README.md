# PMPi firmware: GPIB engine, bootloader and build helpers in Dafny

This project models the deterministic core of the PMPi firmware for the
RP2040 and proves properties of the model. The firmware is an
IEEE 488.1 (GPIB) controller with its own USB bootloader.

**The GPIB engine.** It is modelled in layers, bottom up.
- `Bus`: the GPIO register bank, with line direction and output level, changed
  under a mask by `setMode` and `put` and read through `get`.
- `Interface`: signal assert/clear/release, and a byte packed onto and
  unpacked from the eight DIO lines.
- `Types`: the pin-to-mask derivation of the `PinOut` union.
- `Handshake`: `readByte` and `writeByte` as step functions. These are the
  acceptor handshake (AH, section 2.4 of IEEE 488.1) and the source handshake
  (SH, section 2.3), each inside a loop bounded by the read timeout.
- `Transfer`: a pure model of the framed transfers `receiveData` and
  `sendData` and of the controller's state mapping and command sequencing.
- `GpibNode`: the imperative `Node` class. Its methods are proved against
  `Transfer` and `Handshake`: every method's new bus trace, handshake log and
  variables are those the pure model gives.

**The environment.** The bus peer and the millisecond clock are inputs.
- Each handshake is given a finite sequence of sampled line words with clock
  readings; its last reading is past the timeout.
- Each line test outside a handshake is given the next sampled word.
- The peer goes quiet after some number of handshakes. This is what makes
  `receiveData` end.

The role (Controller or Device) is a parameter of the node.

**The bootloader.**
- `Hex`: Intel HEX line intake (`getLine`, `char2hex`, `transformLine`,
  `checkLine`, `parseLine`, `acquireLine`, `hex_load`). It is written both on
  byte sequences and on a class holding the line buffers.
- `Bootloader`: the record dispatch of `bootloader_load_program`, and the
  boot decision `bootloader_should_run` with its CRC check.
- `Flash`: the page-buffer and sector-erase state machine of `flash.c`. Each
  flash operation is logged, and a safety invariant says every programmed
  page lies in a sector erased before it.

**The helpers.**
- `Header`: `header.py`'s integer parsing and 12-byte header packing.
- `Asm`: `asm.py`'s `.byte` listing, with a parser proving it loses nothing.
- `I2c`: the I2C reserved-address test of `test.hpp`. It follows the I2C-bus
  specification UM10204, section 3.1.12. The module also has the 12-bit sample
  decode of `test.hpp`.
- `Ticks`: the FreeRTOS `millis` and `pdUS_TO_TICKS` conversions.

Behaviours of the source worth noting:
- A write starts by waiting for NDAC to read low (`node.cpp:124-127`), not for
  it to be released.
- A device read aborts when ATN is *released* after being asserted on entry,
  not when ATN becomes asserted (`node.cpp:44-47`).
- `receiveData` stopping at ATN asserted reports success, not an abort
  (`node.cpp:207-210`, `254`).
- The receive buffer's `push` result is ignored (`node.cpp:227`). The buffer is
  therefore modelled as an unbounded append-only sequence.

Integer widths are modelled explicitly where they matter:
- the unsigned 32-bit millisecond difference;
- the uint8 truncation of `GC_TAD + addr`;
- the `unsigned char` page index that wraps from 255 to 0;
- the 32-bit checksum accumulator;
- the uint32/uint64 tick arithmetic;
- `to_bytes(4)` overflow.

## Model

| member | source | states |
|---|---|---|
| Types.RawRoundTrip | modules/gpib/include/gpib/types.hpp:35-37 | The raw 16-entry pinout and the named pin fields are two views of the same data, in the order DIO1..DIO8, REN, EOI, IFC, SRQ, ATN, DAV, NRFD, NDAC; converting either way and back is the identity |
| Types.AllMaskLines | modules/gpib/include/gpib/types.hpp:55-57 | all_mask is the mask of exactly the 16 pins of the raw pinout |
| Types.PinMaskSingle | modules/gpib/include/gpib/types.hpp:59-78 | Every per-signal mask holds exactly one line, its own pin, and its numeric value is 2^pin |
| Types.GroupMaskOrder | modules/gpib/include/gpib/types.hpp:80-82 | get_group_mask gives (dio, ctrl, hand, all) in that order: dio holds exactly the DIO1..DIO8 pins, ctrl exactly REN, EOI, IFC, SRQ, ATN, hand exactly DAV, NRFD, NDAC, and all is their union |
| Types.GroupsDisjoint | modules/gpib/include/gpib/types.hpp:46-54 | With 16 distinct pins the data, control and handshake masks are pairwise disjoint |
| Types.AllMaskSixteen | modules/gpib/include/gpib/types.hpp:55-57 | With 16 distinct pins all_mask has 16 lines (the source only checks the union's size, at line 142, not distinctness) |
| Types.ValueSingle | modules/gpib/include/gpib/types.hpp:61-76 | A one-line mask has the numeric value 1 << pin |
| Types.ValueBound | modules/gpib/include/gpib/types.hpp:32 | Every mask word is a 32-bit value |
| Types.TimeVal | modules/gpib/include/gpib/types.hpp:134 | The int rtmo converted to the uint32 timeval: itself when non-negative, rtmo + 2^32 when negative |
| Bus.Apply | modules/gpib/source/gpib/bus.cpp:5-26 | InputPullup makes exactly the masked lines inputs and keeps every level; OutputHigh / OutputLow make exactly the masked lines outputs at high / low level; put changes only the masked levels, to the value's bits, and no direction; every line outside the mask is unchanged |
| Bus.ApplyIdempotent | modules/gpib/source/gpib/bus.cpp:5-7 | Applying the same setMode or put twice has the effect of applying it once |
| Bus.RunOutside | modules/gpib/source/gpib/bus.cpp:5-26 | A line outside the masks of a whole sequence of operations keeps its direction and its level |
| Bus.Run | modules/gpib/source/gpib/bus.cpp:5-26 | The registers after a sequence of setMode/put/delay operations, each applied in order as Apply says; Bus.RunOutside states what it leaves alone |
| Bus.Get | modules/gpib/include/gpib/bus.hpp:20-23 | get(m) never has a line outside m, and a line is in it iff it is in both the input word and m |
| Bus.GPIBBus.constructor | modules/gpib/include/gpib/bus.hpp:32 | The configuration is fixed at construction; registers start as given, with nothing issued |
| Bus.GPIBBus.SetMode | modules/gpib/source/gpib/bus.cpp:5-26 | The registers become those Apply gives for the mode, the operation joins the trace, and the register invariant is kept |
| Bus.GPIBBus.Put | modules/gpib/include/gpib/bus.hpp:25-28 | The output levels change under the mask only, directions never, and the operation joins the trace |
| Bus.GPIBBus.Sleep | modules/common_api/include/common/delay.hpp:14-19 | A delay changes no register; it is recorded in order among the line operations |
| Interface.Low8 | modules/gpib/source/gpib/interface.cpp:5-19 | The uint8_t truncation of a word: bit k of the byte is set iff line k is in the word, for k below 8 |
| Interface.LoadDataByte | modules/gpib/source/gpib/interface.cpp:5-19 | loadDataByte: the byte made of the DIO lines read from the input word at their GPIO positions, truncated to uint8_t; its bits are stated by Interface.LoadDataBits and its round trip by Interface.Loopback |
| Interface.LoadDataBits | modules/gpib/source/gpib/interface.cpp:5-19 | Bit k of loadDataByte is set iff line k reads high and some DIO pin is wired to GPIO k: only DIO lines on GPIO 0-7 contribute, each at its GPIO position |
| Interface.ReadGpibDbus | modules/gpib/source/gpib/interface.cpp:57-59 | readGpibDbus returns what loadDataByte returns |
| Interface.PushWordLines | modules/gpib/source/gpib/interface.cpp:21-34 | The word pushDataByte writes lies within the data mask, and holds the line of DIO(k+1) iff bit k of the byte is 1 |
| Interface.PushWord | modules/gpib/source/gpib/interface.cpp:21-34 | The word pushDataByte puts on the data lines: the line of DIO(k+1) for every set bit k of the byte; stated by Interface.PushWordLines and Interface.PushDrivesData |
| Interface.PushDrivesData | modules/gpib/source/gpib/interface.cpp:24-33 | After the put, the line of DIO(k+1) is high iff bit k of the byte is 1: data is not inverted, unlike the active-low signals |
| Interface.IsAsserted | modules/gpib/source/gpib/interface.cpp:66-68 | isAsserted(m) holds iff every line of m reads low |
| Interface.AssertedSingle | modules/gpib/source/gpib/interface.cpp:61-68 | For one line, getGpibPinState is true iff it reads high, and isAsserted iff it reads low |
| Interface.LoopbackStraight | modules/gpib/source/gpib/interface.cpp:5-34 | With DIOk wired to GPIO k-1, loading after pushing gives the byte back |
| Interface.LoopbackBit | modules/gpib/source/gpib/interface.cpp:5-34 | With DIO(k+1) on GPIO k, bit k survives a push followed by a load |
| Interface.LoopbackMiswired | modules/gpib/source/gpib/interface.cpp:5-19 | If DIO(k+1) is not on GPIO k, the byte with only bit k set does not survive a push followed by a load |
| Interface.Loopback | modules/gpib/source/gpib/interface.cpp:5-34 | Loading after pushing returns every byte iff each DIOk is wired to GPIO k-1 |
| Interface.AssertClearLevels | modules/gpib/source/gpib/interface.cpp:40-46 | Asserting makes a line an output driven low, clearing an output driven high, and resetting makes it an input |
| Interface.GPIBIOInterface.constructor | modules/gpib/include/gpib/interface.hpp:17 | The pin masks are derived from the pinout and the bus is built from the configuration |
| Interface.GPIBIOInterface.PushDataByte | modules/gpib/source/gpib/interface.cpp:21-34 | One put under the data mask of the word carrying the byte |
| Interface.GPIBIOInterface.ResetBus | modules/gpib/source/gpib/interface.cpp:36-38 | One InputPullup on exactly the given mask |
| Interface.GPIBIOInterface.AssertSignal | modules/gpib/source/gpib/interface.cpp:40-42 | One OutputLow on exactly the given mask |
| Interface.GPIBIOInterface.ClearSignal | modules/gpib/source/gpib/interface.cpp:44-46 | One OutputHigh on exactly the given mask |
| Interface.GPIBIOInterface.ReadyGpibDbus | modules/gpib/source/gpib/interface.cpp:53-55 | One InputPullup on the data mask |
| Handshake.TransmitLines | modules/gpib/source/gpib/node.cpp:5-24 | On distinct pins: TM_IDLE makes DAV, NRFD, NDAC inputs; TM_RECV makes DAV and EOI inputs and NRFD and NDAC outputs at high; TM_SEND the reverse; every other line keeps its direction and level |
| Handshake.ElapsedWrapSafe | modules/gpib/source/gpib/node.cpp:37 | The unsigned 32-bit difference gives back the true elapsed time however the clock wrapped |
| Handshake.ReadRunOps | modules/gpib/source/gpib/node.cpp:50-83 | readByte issues a prefix of: clear NRFD, assert NRFD, clear NDAC, assert NDAC, in that order; as many as the phase it returns has reached, and all four when it completes |
| Handshake.ReadLoop | modules/gpib/source/gpib/node.cpp:26-96 | readByte's loop: passes over the sampled words while run holds and the elapsed uint32 time is below timeval; its operations, EOI and timeout behaviour are stated by Handshake.ReadRunOps, Handshake.ReadRunEoi, Handshake.ReadNoTime and Handshake.SilentReadStalls |
| Handshake.ReadStep | modules/gpib/source/gpib/node.cpp:38-95 | One pass of readByte's loop on a sampled line word: the device abort checks, then the acceptor-handshake case for the current phase; its moves and aborts are stated by Handshake.ReadStepMoves and Handshake.ReadStepAborts |
| Handshake.ReadStepMoves | modules/gpib/source/gpib/node.cpp:50-83 | A read pass changes phase only along the acceptor handshake: NRFD is asserted only once DAV reads low, the byte and EOI are sampled as NDAC is cleared, and NDAC is asserted only once DAV reads high |
| Handshake.ReadStepAborts | modules/gpib/source/gpib/node.cpp:38-48 | A device abandons a read pass on IFC asserted or on ATN released after being asserted on entry; the ATN condition wins and the loop stops |
| Handshake.ReadRunEoi | modules/gpib/source/gpib/node.cpp:34-68 | *eoi starts false and can become true only when readWithEoi holds |
| Handshake.ControllerReadNoAbort | modules/gpib/source/gpib/node.cpp:38-48 | A controller's read never ends in IFC_ASSERTED or ATN_ASSERTED |
| Handshake.SilentReadStalls | modules/gpib/source/gpib/node.cpp:56-63 | With DAV high on every sample, a read never completes and *db is untouched |
| Handshake.ReadNoTime | modules/gpib/source/gpib/node.cpp:27-37 | With rtmo at most 1 no pass runs: HANDSHAKE_START, nothing issued, *db untouched |
| Handshake.ControllerReadStaysComplete | modules/gpib/source/gpib/node.cpp:88-91 | For a controller, a completed read stays complete and the loop stops without further operations |
| Handshake.DeviceReadLosesComplete | modules/gpib/source/gpib/node.cpp:38-48 | For a device, IFC asserted on the pass after completion overwrites the completed state with an abort |
| Handshake.WriteRunOps | modules/gpib/source/gpib/node.cpp:134-181 | writeByte issues, on completion, the byte placed with DAV asserted (EOI too only when config.eoi and isLastByte), then that DAV/EOI released and the data lines zeroed and released; short of completion DAV stays asserted once placed |
| Handshake.WriteLoop | modules/gpib/source/gpib/node.cpp:101-167 | writeByte's loop, bounded by the uint32 elapsed time; its operations and timeout behaviour are stated by Handshake.WriteRunOps and Handshake.WriteNoTime |
| Handshake.WriteStep | modules/gpib/source/gpib/node.cpp:110-166 | One pass of writeByte's loop: the device abort checks, then the source-handshake case for the current phase; stated by Handshake.WriteStepMoves and Handshake.WriteStepAborts |
| Handshake.WriteStepMoves | modules/gpib/source/gpib/node.cpp:123-154 | A write pass changes phase only along the source handshake: NDAC low, then NRFD high, then place, then NRFD low, then NDAC high |
| Handshake.WriteStepAborts | modules/gpib/source/gpib/node.cpp:110-159 | A device abandons a write pass on IFC or ATN asserted, ATN winning, and switches to receive mode |
| Handshake.ControllerWriteNoAbort | modules/gpib/source/gpib/node.cpp:110-121 | A controller's write never ends in IFC_ASSERTED or ATN_ASSERTED |
| Handshake.WriteNoTime | modules/gpib/source/gpib/node.cpp:102-109 | With rtmo at most 1 writeByte issues nothing and returns HANDSHAKE_START |
| Transfer.WriteByteF | modules/gpib/source/gpib/node.cpp:101-184 | One write consumes one handshake of the peer, is logged with its byte, flag and result, and issues exactly the source-handshake operations |
| Transfer.ReadByteF | modules/gpib/source/gpib/node.cpp:26-99 | One read consumes one handshake of the peer and is logged with its state, byte and EOI |
| Transfer.ReadCompletesBeforeQuiet | modules/gpib/source/gpib/node.cpp:26-99 | A read can complete only while some talker is left on the bus |
| Transfer.CommandBytes | modules/gpib/source/gpib/controller.cpp:114-119 | TAD+addr and LAD+addr, truncated to uint8_t, stay in the talk and listen address groups and differ from UNT and UNL only up to address 30; 31 gives exactly UNT and UNL; from 0xC0 the talk byte wraps below the talk group |
| Transfer.SendCmdFacts | modules/gpib/source/gpib/controller.cpp:94-106 | sendCmd enters COMMAND only when not already there, writes the byte once without EOI, ends in COMMAND, and returns 0 iff the handshake completed, else -1 |
| Transfer.SendCmdF | modules/gpib/source/gpib/controller.cpp:94-106 | sendCmd on the pure state: COMMAND entered if needed, then one writeByte without EOI; stated by Transfer.SendCmdFacts |
| Transfer.AddressFacts | modules/gpib/source/gpib/controller.cpp:108-125 | UNL is written strictly before TAD+addr (talk) or LAD+addr (listen); -1 at the first failed command without the next; deviceAddressed set and 0 returned only when both completed |
| Transfer.UnAddressFacts | modules/gpib/source/gpib/controller.cpp:127-142 | With nothing addressed: 1, and no bus activity at all; otherwise the pause, UNL, then UNT only if UNL completed; the flag is cleared (and 0 returned) only when both did, else -1 with the flag still set |
| Transfer.SetStateDevice | modules/gpib/source/gpib/device.cpp:4-32 | A device's setState changes nothing |
| Transfer.SetStateEnds | modules/gpib/source/gpib/controller.cpp:53-92 | For every argument the controller's state ends equal to it, though LISTEN and IDLE pass through COMMAND; any other state gives INVALID |
| Transfer.SetStateF | modules/gpib/source/gpib/controller.cpp:53-92 | The controller's setState: the line operations and command sequence of each case and the state it ends in; stated by Transfer.SetStateEnds and Transfer.SetStateLines |
| Transfer.SetStateLines | modules/gpib/source/gpib/controller.cpp:55-86 | INIT: SRQ input, IFC/REN/ATN high, TM_IDLE, REN asserted; COMMAND: TM_SEND, ATN asserted; TALK: TM_SEND, ATN cleared; LISTEN: addressing to talk, then TM_RECV, ATN cleared; IDLE: un-addressing, then TM_IDLE, ATN cleared; addressing results are ignored |
| Transfer.InitFacts | modules/gpib/source/gpib/controller.cpp:10-32 | Controller::init returns 0 whatever addressing gives: all-clear, every line released, 200 ms, INIT, data lines released, IFC pulse, and addressing to listen only when paddr > 1 |
| Transfer.ReceiveLoopReads | modules/gpib/source/gpib/node.cpp:205-249 | The receive loop only reads, and leaves the controller state and deviceAddressed alone |
| Transfer.ReceiveLoopData | modules/gpib/source/gpib/node.cpp:220-227 | Every completed byte is pushed once, in order, and no failed or aborted one |
| Transfer.ReceiveLoopOk | modules/gpib/source/gpib/node.cpp:205-254 | The loop ends in HANDSHAKE_COMPLETE iff every read it made completed, stopping at ATN included |
| Transfer.ReceiveLoopStops | modules/gpib/source/gpib/node.cpp:232-248 | Reading with EOI, no byte before the last carried EOI; detecting an end byte, no byte before the last was it |
| Transfer.ReceiveFacts | modules/gpib/source/gpib/node.cpp:190-255 | receiveData pushes exactly the completed bytes in order, returns true iff every read completed, and leaves a controller in IDLE |
| Transfer.ReceiveAtnFirst | modules/gpib/source/gpib/node.cpp:205-210 | With ATN asserted at the top of the loop, receiveData pushes nothing and returns true |
| Transfer.ReceiveLoopEnding | modules/gpib/source/gpib/node.cpp:232-248 | Reading with EOI, only EOI ends the message (end byte and EOR ignored); otherwise a detected end byte decides and EOR is ignored |
| Transfer.ReceiveEnding | modules/gpib/source/gpib/node.cpp:194-248 | readWithEoi is config.eoi, detectEoi, EOR SPACE or the Device role; under it the end byte and the terminator test make no difference, and with detectEndByte the terminator test makes none |
| Transfer.PayloadLastIsMessageEnd | modules/gpib/source/gpib/node.cpp:285-290 | A payload byte gets isLastByte exactly when EOI is on and it is the last byte of the whole message, which is possible only with EOS None |
| Transfer.SendLoopFacts | modules/gpib/source/gpib/node.cpp:285-295 | The payload bytes are written in order with their isLastByte flags; every write but the last completed; the loop stops at the first that did not |
| Transfer.SendTerminatorsFacts | modules/gpib/source/gpib/node.cpp:298-313 | CR or LF with EOI as configured, or CR without EOI then LF with EOI as configured, the LF even when the CR failed |
| Transfer.SendBodyFacts | modules/gpib/source/gpib/node.cpp:284-313 | The body writes a prefix of the message (string then terminators), EOI on the last message byte only and only when EOI is on; terminators only when the payload completed; and the whole message when every handshake completes |
| Transfer.SendEmptyAsWritten | modules/gpib/source/gpib/node.cpp:258-298 | As written, an empty string with a terminator configured and an uninitialised state other than HANDSHAKE_COMPLETE sends nothing, though the message is not empty |
| Transfer.SendEmptyCorrected | modules/gpib/source/gpib/node.cpp:258-298 | With the state initialised, the empty string still gets all its terminators |
| Transfer.SendDataFacts | modules/gpib/source/gpib/node.cpp:258-316 | sendData runs the body in TALK, and writes nothing after it except the UNL/UNT of un-addressing as IDLE is entered |
| Transfer.SendDataF | modules/gpib/source/gpib/node.cpp:258-316 | sendData: TALK, the payload loop and the terminators, then IDLE, with the state initialised to HANDSHAKE_COMPLETE as the Findings row corrects; stated by Transfer.SendDataFacts and Transfer.SendBodyFacts |
| Transfer.TalkFacts | modules/gpib/source/gpib/controller.cpp:83-86 | Entering TALK writes no byte; a controller's state becomes TALK with nothing else changed |
| Transfer.IdleFacts | modules/gpib/source/gpib/controller.cpp:62-69 | Entering IDLE writes at most UNL and UNT |
| GpibNode.DataBuffer.Push | modules/gpib/source/gpib/node.cpp:227 | One byte appended to the buffer |
| GpibNode.DataBuffer.constructor | modules/gpib/source/gpib/node.cpp:190-255 | The receive buffer starts empty |
| GpibNode.Node.constructor | modules/gpib/include/gpib/node.hpp:69 | A node starts in INVALID with no device addressed and nothing issued |
| GpibNode.Node.SetTransmitMode | modules/gpib/source/gpib/node.cpp:5-24 | The bus trace grows by exactly the mode's line operations |
| GpibNode.Node.ReadPass | modules/gpib/source/gpib/node.cpp:38-92 | One pass of the read loop does exactly what the read step function gives |
| GpibNode.Node.ReadPasses | modules/gpib/source/gpib/node.cpp:37-96 | The read loop over a handshake's samples ends with the variables and operations of the read loop function |
| GpibNode.Node.ReadPassAt | modules/gpib/source/gpib/node.cpp:37-96 | Pass k of the read loop carries the record of the operations still to come on to pass k + 1 |
| GpibNode.Node.ReadByte | modules/gpib/source/gpib/node.cpp:26-99 | readByte's state, *db, *eoi, bus operations and logged handshake are those of the pure read |
| GpibNode.Node.WritePass | modules/gpib/source/gpib/node.cpp:110-163 | One pass of the write loop does exactly what the write step function gives |
| GpibNode.Node.PlaceByte | modules/gpib/source/gpib/node.cpp:134-144 | Data lines driven with the byte, then DAV asserted, with EOI only when it marks the byte |
| GpibNode.Node.WritePasses | modules/gpib/source/gpib/node.cpp:109-167 | The write loop ends with the variables and operations of the write loop function |
| GpibNode.Node.WritePassAt | modules/gpib/source/gpib/node.cpp:109-167 | Pass k of the write loop carries the record of the operations still to come on to pass k + 1 |
| GpibNode.Node.WriteByte | modules/gpib/source/gpib/node.cpp:101-184 | writeByte's state, bus operations and logged handshake are those of the pure write |
| GpibNode.Node.FinishWrite | modules/gpib/source/gpib/node.cpp:170-181 | DAV (and EOI with it) released, data lines zeroed, then released |
| GpibNode.Node.SetState | modules/gpib/source/gpib/controller.cpp:53-92 | State, flag, trace and log become those of the pure setState for the node's role |
| GpibNode.Node.EnterInit | modules/gpib/source/gpib/controller.cpp:55-61 | As the pure setState(INIT) |
| GpibNode.Node.EnterIdle | modules/gpib/source/gpib/controller.cpp:62-69 | As the pure setState(IDLE) |
| GpibNode.Node.EnterCommand | modules/gpib/source/gpib/controller.cpp:70-73 | As the pure setState(COMMAND) |
| GpibNode.Node.EnterListen | modules/gpib/source/gpib/controller.cpp:74-82 | As the pure setState(LISTEN) |
| GpibNode.Node.EnterTalk | modules/gpib/source/gpib/controller.cpp:83-86 | As the pure setState(TALK) |
| GpibNode.Node.SendCmd | modules/gpib/source/gpib/controller.cpp:94-106 | Result and effects are those of the pure sendCmd |
| GpibNode.Node.AddressDevice | modules/gpib/source/gpib/controller.cpp:108-125 | Result and effects are those of the pure addressDevice |
| GpibNode.Node.UnAddressDevice | modules/gpib/source/gpib/controller.cpp:127-142 | Result and effects are those of the pure unAddressDevice |
| GpibNode.Node.UnlistenThen | modules/gpib/source/gpib/controller.cpp:109-124 | UNL, then the second command only if UNL went through; the flag and 0 only when both did, else -1 |
| GpibNode.Node.Deinit | modules/gpib/source/gpib/controller.cpp:4-8 | INVALID, with every bus line released |
| GpibNode.Node.SendAllClear | modules/gpib/source/gpib/controller.cpp:34-43 | REN cleared, 40 ms, ATN and REN asserted together, 40 ms, ATN cleared |
| GpibNode.Node.SendIFC | modules/gpib/source/gpib/controller.cpp:45-51 | IFC asserted, 150 ms, IFC cleared |
| GpibNode.Node.InitController | modules/gpib/source/gpib/controller.cpp:10-32 | Result and effects are those of the pure Controller::init: always 0 |
| GpibNode.Node.InitBus | modules/gpib/source/gpib/controller.cpp:15-25 | The bus set-up of Controller::init, in order |
| GpibNode.Node.TestAsserted | modules/gpib/source/gpib/interface.cpp:66-68 | isAsserted on the next sampled word, consuming that sample and nothing else |
| GpibNode.Node.ReceiveDataPlain | modules/gpib/source/gpib/node.cpp:186-188 | receiveData(data) is receiveData with no EOI requested and no end byte |
| GpibNode.Node.ReceiveData | modules/gpib/source/gpib/node.cpp:190-255 | The buffer, result, trace and log are those of the pure receiveData |
| GpibNode.Node.ReceiveBytes | modules/gpib/source/gpib/node.cpp:205-249 | The reading loop ends where the pure loop ends, with its buffer and state |
| GpibNode.Node.TakeByte | modules/gpib/source/gpib/node.cpp:227-248 | The byte is appended, and the loop stops exactly when it ends the message under the framing rules |
| GpibNode.Node.ReceivePass | modules/gpib/source/gpib/node.cpp:207-248 | One pass of the receive loop carries the record of what is still to come on to the next pass |
| GpibNode.Node.SendData | modules/gpib/source/gpib/node.cpp:258-316 | Effects are those of the pure sendData, with its state initialised |
| GpibNode.Node.WriteMessage | modules/gpib/source/gpib/node.cpp:284-313 | The body of sendData from a given initial state, as written |
| GpibNode.Node.SendPayload | modules/gpib/source/gpib/node.cpp:285-295 | The payload loop's last state and effects are those of the pure payload loop |
| GpibNode.Node.WriteTerminators | modules/gpib/source/gpib/node.cpp:298-313 | The terminator writes of the pure model |
| Flash.Pending | bootloader/source/flash.c:29-31 | The bytes gathered since the last flush number exactly the fill index |
| Flash.FlushPageFacts | bootloader/source/flash.c:63-97 | A flush with room in the sector copies the first page aside (once) or programs at the programming address; without room it erases the next sector, moves the erasure address on and programs; the programming address moves by one page and the buffer is zeroed |
| Flash.FlushPage | bootloader/source/flash.c:63-97 | flush_page: the first-page copy, a program at the programming address, or the erase of the next sector, with the addresses advanced; the branches are stated by Flash.FlushPageFacts and safety by Flash.FlushSafe |
| Flash.IntakeByteCount | bootloader/source/flash.c:56-63 | One byte moves the fill index on by one, wrapping to 0 exactly when a page is flushed |
| Flash.IntakeByteOrder | bootloader/source/flash.c:59-63 | A byte into a clean buffer joins the pending bytes, or completes the page that is flushed |
| Flash.IntakeCount | bootloader/source/flash.c:55-100 | After sz bytes the fill index is (old + sz) mod 256, exactly (old + sz) div 256 pages were flushed, and the programming address moved by that many pages |
| Flash.IntakeOrder | bootloader/source/flash.c:55-100 | Every flushed page has 256 bytes, the buffer stays clean, and the pending bytes then the input are, in arrival order, the flushed pages then the new pending bytes |
| Flash.IntakeF | bootloader/source/flash.c:55-100 | flash_intake: each byte into the page buffer, with a flush when the unsigned char index wraps; stated by Flash.IntakeOrder, Flash.IntakeCount and Flash.IntakeSafe |
| Flash.IntakeAppend | bootloader/source/flash.c:55-100 | Feeding two byte runs is feeding the first, then the second |
| Flash.IntakeShort | bootloader/source/flash.c:55-100 | Fewer than 256 bytes into an empty buffer issue no flash operation and become the pending bytes |
| Flash.IntakePage | bootloader/source/flash.c:55-100 | A whole page into an empty buffer is exactly one flush, of that page |
| Flash.NewAddressF | bootloader/source/flash.c:102-131 | flash_new_address leaves an empty, clean buffer and flushes no full page |
| Flash.NewAddressFacts | bootloader/source/flash.c:102-131 | A non-empty partial page is programmed first (after an erase when the sector has no room, without moving the erasure address); then the buffer is zeroed, index 0, the sector at the address erased, programming = address and erasure = address + 4096 |
| Flash.FinalizeF | bootloader/source/flash.c:133-154 | flash_finalize changes no state and its last operation programs the kept first page at the application's offset |
| Flash.FinalizeFacts | bootloader/source/flash.c:140-148 | The current buffer is always programmed, even when empty, after an erase when the sector has no room, without moving the erasure address |
| Flash.Initial | bootloader/source/flash.c:23-36 | The writer as the image starts: every global zero, clean, nothing pending |
| Flash.InitF | bootloader/source/flash.c:38-44 | flash_init zeroes the first-page flag and both addresses and leaves the buffers and index alone |
| Flash.FlushSafe | bootloader/source/flash.c:63-97 | A flush keeps every programmed page inside an erased sector, and erases only when programming has reached the erasure address |
| Flash.IntakeSafe | bootloader/source/flash.c:55-100 | flash_intake of any bytes keeps the writer safe |
| Flash.NewAddressSafe | bootloader/source/flash.c:102-131 | flash_new_address makes any writer safe, whatever the address |
| Flash.FinalizeSafe | bootloader/source/flash.c:133-154 | Every page flash_finalize programs lies in an erased sector, except its last operation, the kept first page at the application's offset |
| Flash.InitialSafe | bootloader/source/flash.c:23-44 | The starting writer is safe with an empty log, and flash_init keeps any log safe |
| Flash.NoNewAddressFirstPages | bootloader/source/flash.c:66-88 | Without flash_new_address, the first full page erases sector 0 and is programmed at 0 directly, and the second page is the one kept back |
| Flash.NewAddressDefersFirstPage | bootloader/source/flash.c:66-79 | After flash_new_address the first full page is kept back, and flash_finalize programs the partial buffer and then that page at the start of the application |
| Flash.FlashWriter.constructor | bootloader/source/flash.c:23-36 | The static initialisation: the writer is the starting writer and nothing has been issued |
| Flash.FlashWriter.Init | bootloader/source/flash.c:38-44 | flash_init on the globals |
| Flash.FlashWriter.ClearBuffer | bootloader/source/flash.c:95-96 | The clearing channel zeroes the page buffer |
| Flash.FlashWriter.CopyFirstPage | bootloader/source/flash.c:71-73 | The copying channel copies the page buffer into the first-page buffer |
| Flash.FlashWriter.Flush | bootloader/source/flash.c:63-97 | The globals and the log become those of the pure flush |
| Flash.FlashWriter.TakeByte | bootloader/source/flash.c:56-98 | One pass of the intake loop: the pure byte step |
| Flash.FlashWriter.Intake | bootloader/source/flash.c:55-100 | flash_intake(src, sz): the pure intake of the first sz bytes |
| Flash.FlashWriter.NewAddress | bootloader/source/flash.c:102-131 | The globals and log of the pure flash_new_address |
| Flash.FlashWriter.Finalize | bootloader/source/flash.c:133-154 | The globals unchanged and the log grown by the pure flash_finalize's operations |
| Hex.BlankRecord | bootloader/source/hex.c:19 | The zero-initialised HEX record: count 0, sixteen data cells |
| Hex.Char2HexDigit | bootloader/source/hex.c:72-77 | On '0'-'9' and 'A'-'F', char2hex adds the digit's value into a number whose low nibble is clear |
| Hex.Char2Hex | bootloader/source/hex.c:72-77 | char2hex: or into num the value `val - 'A' + 10` from 'A' upwards and `val - '0'` below it, truncated to a byte; stated by Hex.Char2HexDigit and Hex.Char2HexLowercase |
| Hex.Char2HexLowercase | bootloader/source/hex.c:73-74 | A lower-case 'a'-'f' is read as 42-47, not as its value |
| Hex.HexPairDigits | bootloader/source/hex.c:84-90 | Two digits make the byte 16 * high + low |
| Hex.HexPair | bootloader/source/hex.c:84-90 | The byte of two hex characters: the first char2hex into 0, shifted up four bits in a byte, then the second or-ed in; stated by Hex.HexPairDigits and Hex.EncodedPair |
| Hex.EncodedPair | bootloader/source/hex.c:84-90 | The two upper-case digits of a byte give the byte back |
| Hex.Encode | bootloader/source/hex.c:84-90 | The hex text that transformLine reads: two upper-case hex digits per byte |
| Hex.LineBytesEncode | bootloader/source/hex.c:80-97 | The hex text of some bytes transforms back into those bytes, with zeros after them |
| Hex.LineBytesOddChar | bootloader/source/hex.c:83 | A character left over after the last whole pair changes nothing |
| Hex.Checksum | bootloader/source/hex.c:100-112 | checkLine returns the byte that brings the sum to a multiple of 256, and 0 exactly when the bytes already sum to one |
| Hex.Sum | bootloader/source/hex.c:100-112 | The sum of the buffer's bytes that the DMA sniffer accumulates; Hex.Checksum and Hex.SumPadded state what it gives |
| Hex.NegatedLowByte | bootloader/source/hex.c:111 | The complement of the 32-bit accumulator plus one has the low byte of the negated sum |
| Hex.SumPadded | bootloader/source/hex.c:93-96 | The zeros after the line add nothing to the checksum |
| Hex.Parse | bootloader/source/hex.c:115-132 | count, address (high byte first) and type from the first bytes, the first count data cells from the next, the others untouched, and the record's bytes are the buffer's first 5 + count bytes |
| Hex.RecordBytesFields | bootloader/source/hex.c:115-132 | Two records with the same bytes have the same count, address, type, data and checksum |
| Hex.OverlongCountPassesChecksum | bootloader/source/hex.c:153 | The line ":11000000EF", count 17, passes the checksum test, and parseLine would then write past the sixteen data cells; the corrected test turns it away |
| Hex.Accepts | bootloader/source/hex.c:153 | The corrected acceptance test: checksum zero and count at most 16; Hex.AcceptedInBounds states what it guarantees |
| Hex.AcceptsAsWritten | bootloader/source/hex.c:153 | hex.c's acceptance test: checkLine returns 0; Hex.OverlongCountPassesChecksum shows it lets an overlong count through |
| Hex.AcceptedInBounds | bootloader/source/hex.c:122-163 | The corrected acquireLine accepts a complete line exactly when the checksum test of hex.c:153 passes and the count is at most 16; an accepted line sets the count from the line, writes the line's data bytes into the first count data cells and leaves the other cells alone, and every buffer index parseLine reads (up to 4 + count) is inside the 44-byte buffer; a line that fails is rejected with the record unchanged |
| Hex.AfterColon | bootloader/source/hex.c:55-57 | What follows the first ':' is shorter than the input |
| Hex.TakeLine | bootloader/source/hex.c:59-69 | A complete line is the characters before the first CR or LF, and the rest follows that terminator |
| Hex.ReadLine | bootloader/source/hex.c:43-70 | A complete line is the characters after the first ':' and before the next CR or LF |
| Hex.ReadLineOf | bootloader/source/hex.c:43-70 | The line read is exactly the text between the first ':' and the first CR or LF after it, whatever comes before and after |
| Hex.Replies | bootloader/source/hex.c:139-156 | acquireLine writes 0 first, and 1 after it exactly when the line was accepted |
| Hex.AcquireF | bootloader/source/hex.c:135-163 | A line that fails leaves the record alone; the input runs out exactly when no complete line is left; otherwise the rest follows the line read. Acceptance is the corrected test (checksum zero and count at most 16), not hex.c:153's checksum alone, as the Findings row says |
| Hex.EncodedLine | bootloader/source/hex.c:43-97 | A line of hex text fits the buffer, is read whole, and transforms back into its bytes |
| Hex.AcquireEncoded | bootloader/source/hex.c:135-163 | A well-formed record written as hex text is accepted iff its bytes sum to a multiple of 256, and is then parsed back into the same fields |
| Hex.ParsePadded | bootloader/source/hex.c:115-132 | Parsing the bytes of a well-formed record gives back its fields |
| Hex.AcquireOf | bootloader/source/hex.c:135-163 | acquireLine on an input whose next line is known |
| Hex.AcquireJoin | bootloader/source/hex.c:135-163 | Checking and parsing a complete line's bytes gives the result, record, rest and replies of the pure acquireLine |
| Hex.LoadF | bootloader/source/hex.c:189-194 | hex_load ends without a record only when the input has run out, and a loaded record has at most sixteen data bytes |
| Hex.LoadSkipsRejected | bootloader/source/hex.c:189-194 | A line turned away is skipped: loading goes on with the next line and the same record |
| Hex.HexInput.constructor | bootloader/source/hex.c:31-34 | Zeroed buffers, the blank record and no replies yet |
| Hex.HexInput.ClearBuffer | bootloader/source/hex.c:45-46 | The clearing channel zeroes the line buffer |
| Hex.HexInput.SkipToColon | bootloader/source/hex.c:55-57 | Input consumed up to and including the first ':', or all of it when there is none |
| Hex.HexInput.CopyLine | bootloader/source/hex.c:59-69 | The characters up to CR or LF copied into the buffer, the count set, CR or LF consumed |
| Hex.HexInput.CopyChars | bootloader/source/hex.c:62-66 | The characters before the first CR or LF copied to the front of the cleared buffer, and counted |
| Hex.HexInput.GetLine | bootloader/source/hex.c:43-70 | getLine leaves exactly the line after the first ':' in the cleared buffer and consumes it with its terminator |
| Hex.HexInput.TransformLine | bootloader/source/hex.c:80-97 | The buffer becomes its transformation: each whole pair one byte, zeros after |
| Hex.HexInput.TransformPairs | bootloader/source/hex.c:83-91 | In place, cell i becomes the byte of characters 2i and 2i+1, cells past the pairs untouched |
| Hex.HexInput.ConvertPair | bootloader/source/hex.c:84-90 | Characters 2i and 2i+1 into cell i, every other cell untouched |
| Hex.HexInput.ClearFrom | bootloader/source/hex.c:94-96 | Every cell from the given one on becomes zero |
| Hex.HexInput.CheckLine | bootloader/source/hex.c:100-112 | The load buffer becomes a copy of the buffer and the result is the checksum of the buffer |
| Hex.HexInput.ParseLine | bootloader/source/hex.c:115-132 | The record becomes the parse of the load buffer |
| Hex.HexInput.AcquireLine | bootloader/source/hex.c:135-163 | Result, record, replies and remaining input are those of the pure acquireLine |
| Hex.HexInput.ValidateLine | bootloader/source/hex.c:145-162 | After a complete line: the buffer becomes the line's bytes and is copied for checking; accepted (and parsed, with reply 1) exactly when the bytes pass the corrected test (checksum zero and count at most 16, where hex.c:153 tests the checksum alone), else rejected with the record and the replies unchanged |
| Hex.HexInput.LoadPass | bootloader/source/hex.c:190-191 | One pass of the retry loop carries the record of what is still to come |
| Hex.HexInput.HexLoad | bootloader/source/hex.c:189-194 | Result, record, replies and remaining input are those of the pure hex_load |
| Bootloader.LinearAddress | bootloader/source/bootloader.c:48 | (msb << 16) \| address is msb * 65536 + address, a 32-bit address |
| Bootloader.UpperAddress | bootloader/source/bootloader.c:62 | The upper address half is data[0] * 256 + data[1] |
| Bootloader.Relocate | bootloader/source/bootloader.c:47-50 | A pending address is set on the flash writer once and is no longer pending |
| Bootloader.Dispatch | bootloader/source/bootloader.c:45-67 | The load ends exactly at the end-of-file record, and the writer stays well-formed |
| Bootloader.DispatchExtended | bootloader/source/bootloader.c:61-64 | Extended Linear Address records the upper half, marks it pending and touches no flash |
| Bootloader.DispatchDataPending | bootloader/source/bootloader.c:46-52 | The first data record after it moves the writer to (msb << 16) \| address once, then takes the bytes in at the new address |
| Bootloader.DispatchDataDirect | bootloader/source/bootloader.c:46-52 | With nothing pending a data record only goes to the intake, and its own address is ignored |
| Bootloader.DispatchEndOfFile | bootloader/source/bootloader.c:53-60 | End of file finalizes (after the pending address, if any) and ends the load, its last operation programming the kept first page |
| Bootloader.DispatchOther | bootloader/source/bootloader.c:65-66 | Any other record type changes nothing |
| Bootloader.DispatchSafe | bootloader/source/bootloader.c:45-67 | A record that does not end the load keeps the flash writer safe |
| Bootloader.LoadProgramF | bootloader/source/bootloader.c:39-77 | The load finishes only at an end-of-file record; it ends unfinished only when the input has run out |
| Bootloader.LoadProgramSafe | bootloader/source/bootloader.c:39-77 | A finished load programs every page inside a sector erased before it, except its final operation, the first page at the application's offset |
| Bootloader.EndOfFileSafe | bootloader/source/bootloader.c:53-60 | End of file, pending address or not, programs only erased pages before its final operation |
| Bootloader.DispatchRecord | bootloader/source/bootloader.c:45-67 | One record of the loop on the flash writer, as the pure dispatch |
| Bootloader.ProgramPass | bootloader/source/bootloader.c:43-67 | One pass of the loop carries the record of what is still to come |
| Bootloader.LoadProgram | bootloader/source/bootloader.c:39-77 | Result, writer, flash log and HEX input are those of the pure load from msb 0 with nothing pending |
| Bootloader.PackedImagePasses | bootloader/source/bootloader.c:122-165 | An image whose header header.py packed from the bytes at the start of the main region passes, when the sniffer computes the same CRC-32 |
| Bootloader.CrcPasses | bootloader/source/bootloader.c:122-165 | check_flash_crc32's test: the size word within the main region and the CRC of that many bytes equal to the CRC word; stated by Bootloader.PackedImagePasses and Bootloader.AlteredImageFails |
| Bootloader.AlteredImageFails | bootloader/source/bootloader.c:122-165 | An image whose main region no longer has the CRC-32 its header was packed with fails |
| Bootloader.Boot.constructor | bootloader/source/bootloader.c:167-168 | The scratch register as given, no CRC computed yet |
| Bootloader.Boot.CheckFlashCrc32 | bootloader/source/bootloader.c:122-165 | false without a CRC when the size word exceeds the main region; otherwise one CRC, compared with the CRC word |
| Bootloader.Boot.ShouldRun | bootloader/source/bootloader.c:167-176 | Stay iff scratch 0 is set or the CRC check fails, clearing scratch 0 when staying; with scratch 0 set no CRC is computed; otherwise scratch is unchanged |
| Bootloader.Boot.SoftReset | bootloader/source/bootloader.c:115-117 | Scratch 0 is set, so the next decision stays in the bootloader |
| Header.TrimStart | bootloader/header.py:52 | What int() strips in front leaves no leading white space |
| Header.TrimEnd | bootloader/header.py:52 | What int() strips behind leaves no trailing white space |
| Header.ToDigitsValue | bootloader/header.py:52 | The digits of a number in a base are digits of that base and read back as the number |
| Header.ToDigits | bootloader/header.py:52 | The digits of a number in a base from 2 to 16 are lower-case digits below the base, with no leading zero, and "0" for zero |
| Header.UnsignedLiteral | bootloader/header.py:52 | int(s, 0) reads the prefix for the base followed by the digits of any natural number back as that number |
| Header.UnsignedPrefixed | bootloader/header.py:52 | A 0b, 0o or 0x prefix followed by digits of that base reads as their value |
| Header.UnsignedDecimal | bootloader/header.py:52 | Decimal digits without a leading zero read as their value |
| Header.AnyIntLiteral | bootloader/header.py:49-54 | any_int reads back every literal it can be given: decimal, 0x, 0o or 0b, with or without a minus sign |
| Header.AnyInt | bootloader/header.py:49-54 | any_int (int(x, 0)): white space stripped, an optional sign, then a 0b/0o/0x-prefixed or decimal literal, or an error; stated by Header.AnyIntLiteral, Header.AnyIntUnsigned, Header.AnyIntNegative and Header.LeadingZeroRejected |
| Header.AnyIntUnsigned | bootloader/header.py:49-54 | Without a sign any_int reads the unsigned literal |
| Header.AnyIntNegative | bootloader/header.py:49-54 | A minus sign negates the literal after it |
| Header.LeadingZeroRejected | bootloader/header.py:49-54 | A decimal literal with a leading zero, other than zeros only, is not an integer |
| Header.FromToLittleEndian | bootloader/header.py:73-75 | Decoding the little-endian bytes of a value that fits gives it back |
| Header.ToFromLittleEndian | bootloader/header.py:73-75 | Encoding a decoded byte string gives it back |
| Header.ToBytes4 | bootloader/header.py:73-75 | to_bytes(4) succeeds exactly for 0 .. 2^32-1, and then gives four bytes decoding to the value |
| Header.PackOutcome | bootloader/header.py:60-75 | A header is made iff -a is given as an integer of 0 .. 2^32-1 and the image is below 4 GiB; -a omitted and a non-integer each fail for their own reason |
| Header.Pack | bootloader/header.py:60-75 | The header of address, size and CRC-32 as three little-endian 4-byte words, or the error header.py raises; stated by Header.PackOutcome, Header.PackFields and Header.PackLiteral |
| Header.PackFields | bootloader/header.py:69-75 | The header is 12 bytes, whose three words decode to the load address, the image size and the image's CRC-32 |
| Header.PackLiteral | bootloader/header.py:60-75 | A load address written in any base packs into a header led by that address |
| Ticks.MillisFastRate | modules/common_api/include/common/millis.hpp:11 | Above 1000 Hz millis is always 0 |
| Ticks.MillisExact | modules/common_api/include/common/millis.hpp:11 | A rate dividing 1000 gives the exact milliseconds, modulo 2^32 |
| Ticks.Millis | modules/common_api/include/common/millis.hpp:10-12 | millis: the tick count times 1000 / configTICK_RATE_HZ in integer division, modulo 2^32; stated by Ticks.MillisExact, Ticks.MillisFastRate, Ticks.MillisUnderReports and Ticks.MillisMonotone |
| Ticks.MillisUnderReports | modules/common_api/include/common/millis.hpp:11 | Before wrapping, millis is never more than the true milliseconds |
| Ticks.MillisMonotone | modules/common_api/include/common/millis.hpp:10-12 | Until the product wraps, millis does not go backwards |
| Ticks.UsToTicksExact | modules/common_api/include/common/delay.hpp:10-12 | While product and quotient fit, pdUS_TO_TICKS is the floor of us * rate / 10^6 |
| Ticks.UsToTicks | modules/common_api/include/common/delay.hpp:10-12 | pdUS_TO_TICKS: us * rate / 10^6 in uint64, truncated to the 32-bit TickType_t; stated by Ticks.UsToTicksExact, Ticks.UsToTicksMonotone and Ticks.UsToTicksShort |
| Ticks.UsToTicksMonotone | modules/common_api/include/common/delay.hpp:11 | While the product fits, more microseconds never give fewer ticks |
| Ticks.UsToTicksShort | modules/common_api/include/common/delay.hpp:11 | Less than one tick's worth of microseconds gives 0 ticks |
| Ticks.UnaddressDelay | modules/gpib/source/gpib/controller.cpp:132 | The 30 us pause of unAddressDevice is no tick at all for any rate up to 33333 Hz, and at least one above |
| I2c.ReservedRanges | modules/i2c/include/test.hpp:12-16 | For 7-bit addresses, reserved exactly for 0x00-0x07 and 0x78-0x7F |
| I2c.ReservedAddr | modules/i2c/include/test.hpp:14-16 | reserved_addr: addr & 0x78 is 0 or 0x78; stated by I2c.ReservedRanges and I2c.ReservedIgnoresFlips |
| I2c.ReservedIgnoresFlips | modules/i2c/include/test.hpp:15 | Flipping bits 0-2 or bit 7 does not change the answer |
| I2c.ReadWordBytes | modules/i2c/include/test.hpp:59-63 | The two bytes read land in the low two bytes of the zeroed word, first byte lowest |
| I2c.ByteSwapInvolution | modules/i2c/include/test.hpp:65 | Swapping the bytes twice gives the word back |
| I2c.DecodeSample | modules/i2c/include/test.hpp:62-65 | The decoded sample is (b0 << 4) \| (b1 >> 4), below 4096 |
| I2c.DecodeValue | modules/i2c/include/test.hpp:65 | As a number, the sample is b0 * 16 + b1 div 16 |
| I2c.Decode | modules/i2c/include/test.hpp:62-65 | The sample from the two bytes read into the zeroed word: byte-swapped, then shifted right by 4 and by 16; stated by I2c.DecodeSample and I2c.DecodeValue |
| Asm.OutFile.Write | bootloader/asm.py:64-70 | Writing appends the string to the file's text |
| Asm.OutFile.constructor | bootloader/asm.py:51 | The output file opens empty |
| Asm.DigitChar | bootloader/asm.py:70 | A digit below 16 renders as a lower-case hex character of that value |
| Asm.HexValue | bootloader/asm.py:70 | A character has a value below 16 exactly when it is a lower-case hex digit |
| Asm.ItemForm | bootloader/asm.py:70 | Each byte renders as 0x and two lower-case hex digits whose value is the byte |
| Asm.Items | bootloader/asm.py:70 | The comma-separated `0x..` items of one chunk; Asm.ItemsRoundTrip parses them back |
| Asm.ChunkShape | bootloader/asm.py:68-69 | ceil(len / 16) chunks, all of 16 bytes but the last, which has len mod 16 (or 16), together giving the input in order |
| Asm.Chunks | bootloader/asm.py:68-69 | The 16-byte slices of the input taken from offsets 0, 16, 32, ...; stated by Asm.ChunkShape |
| Asm.WriteAssembly | bootloader/asm.py:51-70 | The text written is the comment, .cpu, .thumb and .section lines, then one .byte line per chunk |
| Asm.WritePreamble | bootloader/asm.py:64-67 | The four header lines, in order |
| Asm.WriteBody | bootloader/asm.py:68-70 | One .byte line per chunk, in order |
| Asm.EmptyInput | bootloader/asm.py:68 | Empty input gives no .byte line |
| Asm.ItemsRoundTrip | bootloader/asm.py:70 | Parsing the ", "-joined items of a chunk gives the chunk's bytes back |
| Asm.LineRoundTrip | bootloader/asm.py:70 | Parsing a .byte line gives its chunk back, followed by what the rest parses to |
| Asm.BodyRoundTrip | bootloader/asm.py:68-70 | Parsing the .byte lines back gives the input bytes exactly |

## Left out

- Pico SDK calls behind the bus (`gpio_get_all`, `gpio_put_masked`, direction and pull-up registers) are the register model; `Node::init`'s `gpio_set_function`/`gpio_set_pulls` loop and `setSignal` are not modelled, and `Controller::init` is modelled from after `Node::init`, which always returns 0.
- Delays of the GPIB engine (`delay_ms`, `delay_us`, `vTaskDelay`) are ordered events on the bus trace; their duration is not modelled. The bootloader's `sleep_ms(1)` in the load loop (`bootloader.c:44`) is not modelled at all: it appears in neither the record dispatch nor the flash log. The FreeRTOS tick counter is an input and `configTICK_RATE_HZ` a parameter. `pdMS_TO_TICKS` is not part of this model.
- Every sample of the lines inside one pass of a handshake loop is taken to see the same word; a line changing between two reads of the same pass is not modelled.
- The device role's `init` and its bus configuration (device.cpp) are not modelled beyond its empty `setState`; the role is a parameter of the node.
- The `Data` buffer is an unbounded append-only sequence with the terminator test (`has_terminator`) as a parameter; its capacity limit, `take`/`give` and `to_string` are not part of this model.
- The CR and LF constants are taken to be ASCII 13 and 10; the header defining them is not part of this model.
- The bus peer is an oracle of sampled words; no electrical behaviour, concurrency or interrupts are modelled.
- Hex.AcquireF / Hex.HexInput.ValidateLine: a line is accepted only when its checksum is zero AND its count is at most 16 (the corrected test of the Findings row); hex.c:153 accepts on the checksum alone, so on an overlong line such as `:11000000EF` the source replies 0 then 1 and parseLine writes past `HEX.data`, while the model replies 0 and rejects the line, and `hex_load` goes on to the next line. Hex.LoadF, Hex.HexInput.HexLoad, Bootloader.Dispatch and Bootloader.LoadProgram inherit this. Hex.OverlongCountPassesChecksum states the source's own test on that line.
- Hex.ReadLine: a line must fit the 44-byte buffer with its terminating zero (at most 43 characters) — the source has no bound and overruns the buffer otherwise; such input is excluded by a precondition.
- Hex.ReadLine: where `getchar` would block because the input has run out, the model stops and reports the input as exhausted.
- `putchar`/`stdio_flush` are modelled as the sequence of reply bytes; USB set-up (`hex_init`, `hex_deinit`), LED blinking and `toggle` are not modelled.
- DMA channels are modelled as the array copy or fill they perform; the sniffer in `checkLine` is the byte sum in a 32-bit accumulator.
- Bootloader.LinearAddress: the `uint16_t` upper half is promoted to `int` before the shift, so an upper half of 0x8000 or more overflows a signed int; the model computes the intended unsigned address.
- Flash addresses are unbounded naturals: 32-bit wrap-around of `programming_address`/`erasure_address` is not modelled, nor page or sector alignment of an address given to `flash_new_address`.
- Flash.FinalizeSafe: the kept first page is programmed at the application's offset without a proof that its sector was erased earlier (it was when the load began with an address record, but not in general).
- The CRC-32 of `check_flash_crc32` and of `header.py` is a parameter (the hardware sniffer configuration cannot be modelled); `FLASH_MAIN_LENGTH` is the length of the main region given, and the header's word offsets are taken to be header.py's layout (address, size, CRC), since the configuration header defining them is not part of this model.
- `bootloader_exit`, `bootloader_init`, `bootloader_deinit` and the reboot itself (`watchdog_reboot`) are not modelled; `SoftReset` stops at setting the scratch register.
- Header.AnyInt: Python's white space (ASCII and Unicode) around the literal and single underscores between digits are modelled; only ASCII digits and letters are digits here, while Python's `int()` also reads other Unicode decimal digits.
- File I/O and argument parsing of `header.py` and `asm.py` (`main`) are not modelled; their inputs are parameters.
- The float temperature conversion, `printf` and the polling loop of `test.hpp` are not modelled; the decode is modelled up to the integer sample.

## Findings

| source | as written | input that shows it | evidently intended | confidence | as-written member | corrected member |
|---|---|---|---|---|---|---|
| modules/gpib/source/gpib/node.cpp:258-298 | `state` is declared without a value, and with an empty string the test before the terminators reads it uninitialised | `sendData("")` with EOS CR, LF or CRLF: the terminators go out only if the indeterminate value happens to be HANDSHAKE_COMPLETE | `state` starts as HANDSHAKE_COMPLETE, so an empty message still gets its terminators | not executed | Transfer.SendEmptyAsWritten | Transfer.SendEmptyCorrected |
| bootloader/source/hex.c:153-157 | acquireLine accepts any line whose checksum is zero and parseLine copies `count` data bytes with no bound | the line `:11000000EF`: count 17 and the bytes sum to 0 mod 256, so parseLine writes a 17th byte past the sixteen cells of `HEX.data` | a line is accepted only when its count fits the data array | not executed | Hex.OverlongCountPassesChecksum | Hex.AcceptedInBounds |
