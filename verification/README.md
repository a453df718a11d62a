# Models of the lighting-control firmware

This project models the message-integrity and framing code of the `uttec528` lighting firmware, the
small state machines that run on it, and the circular-buffer loops of the SDK it is built with, and
proves properties of them over every input, every stream and every run.

How it is organised, from the bottom up:

- **Checks.** `Registers` and `Crc` describe the CRC-16 register with generator
  x^16 + x^15 + x^2 + 1 once, as `Run`, a byte at a time. `Crc.GenCrc16` is the augmented,
  left-shifting loop of `gen_crc16`, `Modbus.ModRtuCrc` the right-shifting loop of `ModRTU_CRC`
  (sections 2.5.1.2 and 6.2.2 of MODBUS over Serial Line V1.02); both are proved to compute `Run`, from
  0 and from 0xFFFF. `Polynomials` ties `Run` to division by the generator, with the quotient found by
  long division, which is a definition independent of any shift register. `Detection` says what the
  check detects and that the limits are tight. `FlashCrc` proves the shift-and-xor trick of
  `ble_flash_crc16_compute` equal to eight steps of the bit-by-bit register for x^16 + x^12 + x^5 + 1.
- **Framing.** `Rs485` is the brace and hexadecimal frame, `Modbus` its ASCII and RTU relatives. Each has
  the printer and the parser as methods of a class on arrays, proved against a step function, and
  the theorems are about runs of the step function: exactly which streams are accepted, the round
  trip, resynchronisation, rejection of corrupted frames. `Bus` adds the main loop that polls the port,
  at times of its own, and a line with many devices on it.
- **Infrared.** `Infrared` is one decoder step for both protocols and its meaning over an arbitrary
  history of intervals, and the transmitter; `Rcu` joins two 64-bit words into a frame.
- **Steps of the network.** `Server` is the request handler of a node and what a whole network of nodes
  answers; `Routing` is how requests pass down and acknowledgements back up through nodes over RS-485,
  LoRa and radio, ending in `Routing.ServerHearsBack`, which says exactly when a server hears back;
  `Sealing` is the two seals frames carry on the air; `PingPong` is the two-node role protocol with its
  interrupts.
- **Numbers.** `DimmerRamp` is the ramp in units of 1/10000, `LoadCell` the truncating average,
  `CircularBuffer` the block write and read loops.

Frames are sequences of 32 bytes addressed by offset (`Frames`), because the code reads the same bytes
through several overlaid structures. Transmissions are values that methods return or append to a
list; the time, the sensors, the monitor's readings and the indeterminate half of a stack variable are
parameters. Radio callbacks are events that may come between any two steps of the main loop where
the loop waits.

Five properties one might expect are false of the code. Each has its exact condition and an input:

- The PING/PONG roles are stable only if no frame arrives between filling the shared buffer and sending
  it: `PingPong.RolesStable` is the equivalence over whole runs, `PingPong.TwoMastersFromPowerUp` a run
  from power-up that finds the roles and then ends with two masters.
- A tagged infrared frame whose second half starts with 0xAA as well is never reported:
  `Rcu.FrameReported` is the equivalence, `Rcu.NeverReported` such a frame with a correct CRC.
- Node addresses stay unique only if a new factory setting does not hand out an address in use:
  `Server.UniqueAfter` is the equivalence, `Server.AddressHandedOutTwice` a network and a request.
- The load-cell average can leave the range of its samples after `resetHX711`, which does not clear the
  running total: with r resets after the eighth sample it is safe exactly for samples whose bounds, r
  times over, stay within 7 (`LoadCell.ResetsExactly`); `LoadCell.ResetBreaksBound` is an input.
- The lamp does not always follow the level, because `procDim` writes it only on ticks that end off the
  target: `DimmerRamp.LampAtRest` says when it shows the low limit at rest and when it is left as it was,
  and `DimmerRamp.LampNeverWritten` is a node that never writes it from power-up on.

Where code and documentation disagree, the model follows the code:

- The LRC sums the ASCII characters, while section 2.5.2.1 of MODBUS over Serial Line V1.02 sums the
  bytes they stand for. Both ends of this code agree with each other.
- `setModRData` checks the first six bytes whatever the length of the frame, so a reply of three data bytes
  is recognised only when its CRC is zero (`Modbus.RtuThreeBytes`).
- The `length` field after an ASCII frame counts slave and function as well; `lengthForData` does not.
- A node that answers a request received over RS-485 prepares its acknowledgement but the line that would send
  it is commented out (`Routing.Request485`).
- The constructor of `Rcu` attaches the 32-bit callback only; the 64-bit one is modelled as written.

## Model

| member | source | states |
|---|---|---|
| Crc.GenCrc16 | mbed528/uttec528/UttecApp/UttecUtil.cpp:22-52 | the augmented, left-shifting, bit-reversing routine returns, for every byte string, the reflected register started from 0 |
| Crc.Absorb | mbed528/uttec528/UttecApp/UttecUtil.cpp:30-40 | the bit loop over the message leaves the mirror image of the register that takes message bits in at its far end |
| Crc.Reverse | mbed528/uttec528/UttecApp/UttecUtil.cpp:45-51 | the mask loop reverses the sixteen bits |
| Crc.AugIsRun | mbed528/uttec528/UttecApp/UttecUtil.cpp:30-44 | sixteen zero bits after the message turn the register that takes its bits in at the far end into the one that adds them directly |
| Crc.RunIsRunBits | mbed528/uttec528/UttecLib/modBus.cpp:227-238 | taking a byte at a time equals taking its bits one by one, least significant first |
| Crc.RunLinear | mbed528/uttec528/UttecLib/modBus.cpp:227-238 | the register is linear in start value and message together |
| Crc.RunConcat | mbed528/uttec528/UttecLib/modBus.cpp:227-238 | the register over a concatenation continues from where the first part left it |
| Crc.Residue | mbed528/uttec528/UttecLib/modBus.cpp:223-240 | appending a word, low byte first, leaves zero exactly when the word is the CRC of the message |
| Modbus.ModRtuCrc | mbed528/uttec528/UttecLib/modBus.cpp:223-240 | the right-shifting routine returns the same register started from 0xFFFF |
| Modbus.CrcsDiffer | mbed528/uttec528/UttecLib/modBus.cpp:223-240 | gen_crc16 xor ModRTU_CRC is the same for any two messages of equal length |
| Modbus.CrcDifference | mbed528/uttec528/UttecLib/modBus.cpp:223-240 | and is the register 0xFFFF after that many zero bytes |
| Modbus.StartComplements | mbed528/uttec528/UttecLib/modBus.cpp:225-239 | starting from 0xFFFF is complementing the first sixteen bits of the message and starting from 0, which ties ModRTU_CRC to the division too |
| Modbus.RtuResidue | mbed528/uttec528/UttecLib/modBus.cpp:278-283 | ModRTU_CRC of a frame with its own CRC appended low byte first is 0 |
| Polynomials.ZeroIsMultiple | mbed528/uttec528/UttecApp/UttecUtil.cpp:22-52 | a bit string leaves the register zero exactly when it is a multiple of the generator polynomial |
| Polynomials.Divide | mbed528/uttec528/UttecApp/UttecUtil.cpp:22-52 | long division finds the quotient of any string that leaves zero |
| Polynomials.CrcIsRemainder | mbed528/uttec528/UttecApp/UttecUtil.cpp:22-52 | the returned value is the only word that makes message and word a multiple of the generator |
| Polynomials.ChecksIsDivisibility | mbed528/uttec528/UttecLib/rs485.cpp:111-146 | a block passes the frame check exactly when it is a multiple of the generator |
| Polynomials.UndetectedErrors | mbed528/uttec528/UttecLib/rs485.cpp:111-146 | an error pattern goes unnoticed exactly when it is a multiple of the generator |
| Detection.Undetected | mbed528/uttec528/UttecLib/rs485.cpp:111-146 | whether an error on an accepted block is noticed depends on the error alone |
| Detection.DetectsOddFlips | mbed528/uttec528/UttecLib/rs485.cpp:111-146 | any odd number of flipped bits is rejected, for blocks of any length |
| Detection.DetectsBurst | mbed528/uttec528/UttecLib/rs485.cpp:111-146 | any non-empty set of flips inside sixteen consecutive bits is rejected, for blocks of any length |
| Detection.DetectsThreeFlips | mbed528/uttec528/UttecLib/rs485.cpp:111-146 | one, two or three flipped bits anywhere in a block of up to 34 bytes are rejected |
| Detection.GeneratorUndetected | mbed528/uttec528/UttecLib/rs485.cpp:111-146 | four flips spread over seventeen bits can pass, so both limits are tight |
| Bytes.ByteSumIsSum | mbed528/uttec528/UttecLib/Rf.cpp:108-121 | the uint8_t accumulator of both checksums holds the sum of the bytes, as numbers, modulo 256 |
| FlashCrc.Compute | mbed528/uttec528/UttecLib/Flash.cpp:13-27 | the routine returns the bit-by-bit CRC for x^16+x^12+x^5+1 from 0xFFFF, or from the value passed in |
| FlashCrc.StartComplements | mbed528/uttec528/UttecLib/Flash.cpp:16-26 | without a prior value the result is that of the message with its first sixteen bits complemented, started from 0 |
| FlashCrc.TurnIsEightSteps | mbed528/uttec528/UttecLib/Flash.cpp:20-24 | the five assignments of one turn equal eight shift steps of the register |
| FlashCrc.Resume | mbed528/uttec528/UttecLib/Flash.cpp:16-26 | continuing over b with the value returned for a equals computing over a then b |
| Hex.UnhexPrinted | mbed528/uttec528/UttecApp/UttecUtil.cpp:54-68 | reading back printed bytes gives the bytes |
| Hex.Hex2DecExactly | mbed528/uttec528/UttecApp/UttecUtil.cpp:54-68 | a character has a value below 16 exactly if it is a digit of either case, and then the digit printed for it; any other reads as 0x55 |
| Hex.ReadHex | mbed528/uttec528/UttecLib/rs485.cpp:120-125 | the decoding loop reads each pair of characters as one byte |
| Hex.PrintAll | mbed528/uttec528/UttecLib/rs485.cpp:286-289 | the printing loop writes two digits per byte at the right place, a zero behind the last, and touches nothing else |
| Rs485.Port.constructor | mbed528/uttec528/UttecLib/rs485.cpp:21-25 | a new port is an idle receiver with its counter at zero |
| Rs485.AppendCrc | mbed528/uttec528/UttecLib/rs485.cpp:272-280 | the block sent is the frame followed by its CRC, low byte first |
| Rs485.Port.Send485 | mbed528/uttec528/UttecLib/rs485.cpp:264-292 | what is sent, and left in the buffer, is the 70-character form of the frame |
| Rs485.Port.Reform485ToRx | mbed528/uttec528/UttecLib/rs485.cpp:111-146 | it succeeds exactly when the decoded 34 bytes pass the CRC, and only then stores the first 32 |
| Rs485.Port.Parse485Data | mbed528/uttec528/UttecLib/rs485.cpp:148-186 | one character takes the port through exactly one receiver step, all fields and the buffer included |
| Rs485.Port.Clear485Done | mbed528/uttec528/UttecLib/rs485.cpp:75-77 | only the flag changes |
| Rs485.Follows | mbed528/uttec528/UttecLib/rs485.cpp:148-186 | from an idle receiver, for every stream, the start and done flags and the frame register are functions of the whole stream; so are the counter while a window is open or a frame waits, and the stored characters while a window is open |
| Rs485.CountsFollow | mbed528/uttec528/UttecLib/rs485.cpp:148-186 | behind any brace the counter counts characters modulo 70, the buffer holds those counted, and the status flag marks a full window whether or not its CRC was right |
| Rs485.ExactAcceptance | mbed528/uttec528/UttecLib/rs485.cpp:148-186 | from reset, or any state with no window open and no frame waiting, done holds iff the stream is p { w } t with w 68 brace-free characters passing the CRC and t brace-free of at most 69; the frame is what the last accepted window carried |
| Rs485.WindowOutcome | mbed528/uttec528/UttecLib/rs485.cpp:148-186 | from any receiver state a whole window is judged by its content alone |
| Rs485.BlockAccepted | mbed528/uttec528/UttecLib/rs485.cpp:264-292 | what is printed for a frame contains no brace, is accepted and carries that frame |
| Rs485.WireLayout | mbed528/uttec528/UttecLib/rs485.cpp:264-292 | the 70 characters: braces at the ends, two lower-case digits for each byte of the frame in order, and two bytes that make the whole leave the CRC register zero |
| Rs485.RoundTrip | mbed528/uttec528/UttecLib/rs485.cpp:264-292 | the characters printed for any frame are received as that frame from any receiver state |
| Rs485.Resynchronises | mbed528/uttec528/UttecLib/rs485.cpp:148-186 | also after any garbage |
| Rs485.CorruptionRejected | mbed528/uttec528/UttecLib/rs485.cpp:111-146 | a window that decodes to a sent block with one to three, an odd number, or a burst of up to sixteen bits flipped is refused and leaves the frame register alone |
| Rs485.Exchange | mbed528/uttec528/UttecLib/rs485.cpp:264-292 | between two devices, sending and feeding character by character delivers the frame |
| Bus.StaysInStep | mbed528/uttec528/UttecLib/rs485.cpp:62-68 | clearing the flag or overwriting the frame never disturbs the parser, whatever comes next |
| Bus.SendKeepsStep | mbed528/uttec528/UttecLib/rs485.cpp:282-290 | what the device itself sends, which overwrites the buffer being filled, leaves its parser in step iff no character of an open window is in the buffer |
| Bus.SentTextJudged | mbed528/uttec528/UttecLib/rs485.cpp:158-169 | a send between the 68th character and the closing brace makes the brace judge what was sent |
| Bus.TaskMaySend | mbed528/uttec528/UttecProc/proc485.cpp:89-119 | a task that has just been handed a frame may send: no window is open then |
| Bus.TakenExactly | mbed528/uttec528/mainForSx1276.cpp:160-165 | however the line is cut into polls, and whatever the device sends while no window is open, a poll hands over a frame iff an accepted window carrying it closes among that poll's characters with a short brace-free tail, so no window is handed over twice |
| Bus.TakenOnceExactly | mbed528/uttec528/mainForSx1276.cpp:160-165 | a device that does not send into an open window takes the request behind some noise, once and nothing else, in every way of cutting noise and request into polls, iff the noise contains no accepted window |
| Bus.HeardOnce | mbed528/uttec528/mainForSx1276.cpp:160-165 | however noise without such a window, the request and a short tail are cut into polls, the device takes exactly that request, acknowledges it iff it is one to answer, and is idle again |
| Bus.LineIsBroadcast | mbed528/uttec528/mainForSx1276.cpp:160-165 | over any run of server requests, each found by every device in polls, noise and readings of its own, with sends of its own while no window is open, the nodes become what they would if handed every request once |
| Bus.AtMostOneOnLine | mbed528/uttec528/UttecProc/proc485.cpp:89-99 | on such a line at most one device prepares an acknowledgement of each request, the one addressed exactly; the code does not send it over RS-485 |
| Bus.PollPort | mbed528/uttec528/UttecLib/rs485.cpp:62-68 | draining the readable characters and clearing the flag is one turn of the polled receiver |
| Modbus.ModBus.constructor | mbed528/uttec528/UttecLib/modBus.cpp:22-29 | the line starts idle |
| Modbus.ModBus.GenerateModRtu | mbed528/uttec528/UttecLib/modBus.cpp:271-298 | what is sent is slave, function, data and the CRC, low byte first |
| Modbus.RtuLayout | mbed528/uttec528/UttecLib/modBus.cpp:271-298 | byte by byte: slave, function, data, and two bytes that make the whole leave the register zero |
| Modbus.ModBus.ParseModRtu | mbed528/uttec528/UttecLib/modBus.cpp:151-173 | one character takes the line through exactly one parser step |
| Modbus.ModBus.TimeOutRtu | mbed528/uttec528/UttecLib/modBus.cpp:123-125 | only the silence flag changes |
| Modbus.ModBus.SetModRData | mbed528/uttec528/UttecLib/modBus.cpp:90-119 | the stored frame, its length and the verdict over the first six bytes |
| Modbus.ModBus.IsRtuDone | mbed528/uttec528/UttecLib/modBus.cpp:143-148 | a poll takes at most one character and evaluates a frame once silence has fallen |
| Modbus.Collects | mbed528/uttec528/UttecLib/modBus.cpp:143-173 | over any interleaving of characters, polls and silences that no poll falls into, the raw buffer holds the characters in order and nothing is reported |
| Modbus.AfterSilence | mbed528/uttec528/UttecLib/modBus.cpp:90-119 | any six to seventy characters are reported after the silence iff the slave is not 0 and the last two are the CRC of the first six |
| Modbus.ReportedOnce | mbed528/uttec528/UttecLib/modBus.cpp:143-148 | the next poll takes the report back and leaves the frame |
| Modbus.RtuRoundTrip | mbed528/uttec528/UttecLib/modBus.cpp:143-173 | every frame of four data bytes with non-zero slave, fed to an idle line with polls in between and silence at the end, is reported with its slave, function and data |
| Modbus.RtuThreeBytes | mbed528/uttec528/UttecLib/modBus.cpp:349-355 | a three-byte reply is reported iff its CRC is 0 |
| Modbus.RtuCorruptionUnreported | mbed528/uttec528/UttecLib/modBus.cpp:90-119 | a sent frame of four data bytes with one to three, an odd number, or a burst of up to sixteen bits flipped is not reported |
| Modbus.ModBus.GenerateModAscii | mbed528/uttec528/UttecLib/modBus.cpp:242-269 | what is written is colon, hexadecimal text, its LRC and the line end, with the lengths recorded |
| Modbus.AsciiLayout | mbed528/uttec528/UttecLib/modBus.cpp:242-269 | character by character: colon, two lower-case digits for each byte, an LRC that makes the sum of the characters and itself a multiple of 256, carriage return, line feed |
| Modbus.ModBus.IsLrcOk | mbed528/uttec528/UttecLib/modBus.cpp:42-50 | true iff the negated sum of the characters is the LRC |
| Modbus.LrcOkExactly | mbed528/uttec528/UttecLib/modBus.cpp:42-50 | that is, iff the characters as numbers and the LRC add up to a multiple of 256 |
| Modbus.ModBus.SetModAData | mbed528/uttec528/UttecLib/modBus.cpp:52-74 | the decoded frame, its lengths and the verdict |
| Modbus.ModBus.EndAscii | mbed528/uttec528/UttecLib/modBus.cpp:187-209 | the line feed closes a frame iff one is open and a carriage return came before it |
| Modbus.ModBus.ParseModAscii | mbed528/uttec528/UttecLib/modBus.cpp:175-221 | one character takes the line through exactly one parser step |
| Modbus.AsciiStores | mbed528/uttec528/UttecLib/modBus.cpp:216-219 | inside a frame every character but line feed, a colon included, is stored in order |
| Modbus.AsciiFramed | mbed528/uttec528/UttecLib/modBus.cpp:175-221 | any framed text on an idle line is accepted iff its LRC is right and its slave is not 0, is decoded pair by pair, and leaves lengths, LRC and status recorded |
| Modbus.AsciiDropped | mbed528/uttec528/UttecLib/modBus.cpp:203-208 | a line feed without a carriage return before it drops the text and leaves the last frame as it was |
| Modbus.AsciiRoundTrip | mbed528/uttec528/UttecLib/modBus.cpp:242-269 | every frame with non-zero slave and at most 30 data bytes is recovered, with lengthForData the length sent |
| Modbus.AsciiDetects | mbed528/uttec528/UttecLib/modBus.cpp:42-50 | changing any one character the LRC covers, ahead of the LRC's own digits, makes the check fail |
| Infrared.FollowsAll | mbed528/uttec528/UttecLib/Rcu.cpp:120-167 | over any intervals: a word is coming in iff the last intervals are a header and fewer bits than a word, and the register is those bits up to stale bits above them |
| Infrared.WindowsExactly | mbed528/uttec528/UttecLib/Rcu.cpp:83-98 | the intervals taken for a header and for a bit |
| Infrared.HeaderClears | mbed528/uttec528/UttecLib/Rcu.cpp:131-137 | a header clears the 32-bit register and leaves the 64-bit one |
| Infrared.WordComplete | mbed528/uttec528/UttecLib/Rcu.cpp:120-167 | the flag is raised by an interval iff it ends a header followed by a whole word of bits; the register is then those bits, most significant first; while a word comes in, 1 to 32 (or 64) bits remain |
| Infrared.RestFollows | mbed528/uttec528/UttecLib/Rcu.cpp:120-167 | timeout and bit counter are set while a word is coming in and cleared otherwise; the end flag never rises |
| Infrared.FlagRaised | mbed528/uttec528/UttecLib/Rcu.cpp:120-167 | from a cleared flag, it is up iff some prefix of the intervals ends in a whole word |
| Infrared.SentBits | mbed528/uttec528/UttecLib/Rcu.cpp:197-205 | the bits taken off the top of the word, in order, denote the word |
| Infrared.SymbolsExactly | mbed528/uttec528/UttecLib/Rcu.cpp:33-71 | the periods sent: the header, 1700 microseconds for a one, 700 for a zero, and one zero more |
| Infrared.WordDelivered | mbed528/uttec528/UttecLib/Rcu.cpp:73-119 | a word sent with every symbol 100 to 600 microseconds late is received after any history and whatever the register held |
| Rcu.GenerateSignal | mbed528/uttec528/UttecLib/Rcu.cpp:197-205 | the loop emits the header, the bits from the top and a closing symbol |
| Rcu.VendorCodeDelivered | mbed528/uttec528/UttecLib/Rcu.cpp:61-71 | the fixed code of the 32-bit transmitter is what the 32-bit decoder reads |
| Rcu.FrameReported | mbed528/uttec528/UttecLib/Rcu.cpp:207-234 | a frame tagged 0xAA is reported iff its second half does not start with 0xAA and its CRC field is right, and then it is that frame |
| Rcu.ReadyStays | mbed528/uttec528/UttecLib/Rcu.cpp:227-230 | a report stays until it is cleared |
| Rcu.FrameOkIsZero | mbed528/uttec528/UttecLib/Rcu.cpp:207-213 | the CRC field is right iff all sixteen bytes leave the register zero |
| Rcu.LittleEndian | mbed528/uttec528/UttecLib/Rcu.cpp:219-225 | each byte in memory weighs 256 times the one before it in the word |
| Rcu.ReadAgain | mbed528/uttec528/UttecLib/Rcu.cpp:215-234 | reading the second half again changes nothing |
| Rcu.TaggedTwice | mbed528/uttec528/UttecLib/Rcu.cpp:219-234 | a frame tagged 0xAA in both halves is not reported however often it is handed over |
| Rcu.NeverReported | mbed528/uttec528/UttecLib/Rcu.cpp:207-234 | there is such a frame with a correct CRC field |
| Rcu.FrameOverTheAir | mbed528/uttec528/UttecLib/Rcu.cpp:73-119 | transmitter, late symbols, decoder and reassembly together report exactly that frame, whatever the register and the history |
| Rcu.Remote.RcuCallback | mbed528/uttec528/UttecLib/Rcu.cpp:120-167 | one edge is one decoder step with the elapsed time modulo 2^32 |
| Rcu.Remote.RcuUtCallback | mbed528/uttec528/UttecLib/Rcu.cpp:73-119 | the same for the 64-bit decoder, whose register the header does not clear |
| Rcu.Remote.ReturnUtRcuCode | mbed528/uttec528/UttecLib/Rcu.cpp:215-234 | one call is one reassembly step |
| PingPong.RolesStable | mbed528/uttec528/Simulation/sx1276Exe_org.cpp:107-256 | from one master and matching frames, roles and frames match at every moment of a run, whatever is delivered, lost, garbled, completed or timed out, iff no wait that ended in it was hit by a delivery |
| PingPong.RunSound | mbed528/uttec528/Simulation/sx1276Exe_org.cpp:107-256 | in such a run each waiting station shows its own message, or the other one's if it was hit |
| PingPong.OwnStep | mbed528/uttec528/Simulation/sx1276Exe_org.cpp:259-308 | every event but the end of a hit wait keeps that and leaves the other station alone |
| PingPong.WaitOutcome | mbed528/uttec528/Simulation/sx1276Exe_org.cpp:127-134 | after such a run, whatever the other station is doing, the frame sent is the station's own message, and the frames still match, iff its wait was not hit |
| PingPong.FrameAnswered | mbed528/uttec528/Simulation/sx1276Exe_org.cpp:114-187 | a frame handed to a listening station makes it send exactly one frame of the same size: its own word and a payload that counts from 0 |
| PingPong.TimeoutAnswered | mbed528/uttec528/Simulation/sx1276Exe_org.cpp:201-218 | a receive timeout makes the master send one PING, and the slave listen again and send nothing |
| PingPong.ErrorAnswered | mbed528/uttec528/Simulation/sx1276Exe_org.cpp:219-244 | a receive error makes each station send one frame with its own word |
| PingPong.CompletionAnswered | mbed528/uttec528/Simulation/sx1276Exe_org.cpp:188-200 | the end of a transmission, or its timeout, makes the station listen and send nothing |
| PingPong.FrameDecides | mbed528/uttec528/Simulation/sx1276Exe_org.cpp:114-187 | for any station and payload: a PING makes a slave that answers PONG, a PONG makes a master answer PING, anything else makes a silent listening master, an empty frame is ignored |
| PingPong.CallbacksListen | mbed528/uttec528/Simulation/sx1276Exe_org.cpp:259-308 | every callback but a reception listens again, and the bytes of the shared buffer each of them changes |
| PingPong.SilentTurnsListen | mbed528/uttec528/Simulation/sx1276Exe_org.cpp:188-218 | a turn that sends nothing leaves the station listening |
| PingPong.PlaysOn | mbed528/uttec528/Simulation/sx1276Exe_org.cpp:107-256 | with nothing lost and nothing in a wait the exchange goes on for any number of frames |
| PingPong.TwoMasters | mbed528/uttec528/Simulation/sx1276Exe_org.cpp:107-256 | a listening master that times out and is then handed a PONG in its wait makes a second master |
| PingPong.RolesFound | mbed528/uttec528/Simulation/sx1276Exe_org.cpp:107-256 | two boards just switched on reach one master, one slave, both listening, and a PONG on its way |
| PingPong.TwoMastersFromPowerUp | mbed528/uttec528/Simulation/sx1276Exe_org.cpp:107-256 | and from there two masters again |
| PingPong.WrongFrame | mbed528/uttec528/Simulation/sx1276Exe_org.cpp:107-256 | the run that makes the master put a PONG on the air |
| PingPong.Board.Fill | mbed528/uttec528/Simulation/sx1276Exe_org.cpp:223-228 | the message and the counting payload, byte by byte, over the old contents |
| PingPong.Board.BeginTurn | mbed528/uttec528/Simulation/sx1276Exe_org.cpp:107-256 | one iteration up to its wait |
| PingPong.Board.FinishTurn | mbed528/uttec528/Simulation/sx1276Exe_org.cpp:229-244 | the rest of it and the frame sent |
| PingPong.Board.ReceiveDone | mbed528/uttec528/Simulation/sx1276Exe_org.cpp:266-280 | the payload overwrites the shared buffer in place |
| PingPong.Board.ReceiveTimeout | mbed528/uttec528/Simulation/sx1276Exe_org.cpp:291-299 | the zero written behind the payload |
| Sealing.CalCheckSum | mbed528/uttec528/UttecLib/Rf.cpp:108-121 | the sum of every byte but the last, modulo 256 |
| Sealing.Radio.SendRf | mbed528/uttec528/UttecLib/Rf.cpp:138-150 | the transmit register is the sealed frame |
| Sealing.Radio.IsOkCheckSum | mbed528/uttec528/UttecLib/Rf.cpp:183-216 | true iff group, checksum and reserved CRC agree |
| Sealing.OkCheckSumExactly | mbed528/uttec528/UttecLib/Rf.cpp:183-216 | byte by byte: the group, the sum of the first 31 bytes as numbers modulo 256, and a CRC that leaves zero over the three reserved words |
| Sealing.RfSealPasses | mbed528/uttec528/UttecLib/Rf.cpp:183-216 | a sealed frame is accepted by exactly the receivers of its own group |
| Sealing.RfSealKeeps | mbed528/uttec528/UttecLib/Rf.cpp:138-150 | sealing changes the reserved words and the checksum only |
| Sealing.RfSealTwice | mbed528/uttec528/UttecLib/Rf.cpp:138-150 | sealing again changes nothing |
| Sealing.FrameBox.SendSxFrame | mbed528/uttec528/UttecProc/procSx1276.cpp:95-105 | the frame is sealed in place |
| Sealing.FrameBox.SxRxCrc | mbed528/uttec528/UttecApp/UttecUtil.cpp:453-471 | true iff both nested CRCs are right |
| Sealing.SxOkExactly | mbed528/uttec528/UttecApp/UttecUtil.cpp:453-471 | byte by byte: the CRC leaves zero over the first 18 bytes and over all 32 |
| Sealing.SxSealPasses | mbed528/uttec528/UttecProc/procSx1276.cpp:95-105 | a sealed frame passes both nested checks and differs in the two CRC fields only |
| Sealing.SxSealFixed | mbed528/uttec528/UttecApp/UttecUtil.cpp:453-471 | a frame passes iff sealing it changes nothing; sealing twice is sealing once |
| Sealing.SxCorruptionRejected | mbed528/uttec528/UttecApp/UttecUtil.cpp:453-471 | a sealed frame with one to three, an odd number, or a short burst of bits flipped is refused |
| Server.WhoAnswers | mbed528/uttec528/UttecProc/procServer.cpp:204-244 | a node answers iff the request addresses it exactly and the sub-command, its pid and the node's (new) role call for it; never for the group address alone |
| Server.AnswerIsAck | mbed528/uttec528/UttecProc/procServer.cpp:140-147 | an answer is a client acknowledgement of the same sub-command to the master at pid 0 of group 0, otherwise the node's own frame, byte for byte but for reported readings; an unanswered request is unchanged |
| Server.AddressedExactly | mbed528/uttec528/UttecApp/UttecUtil.cpp:387-410 | byte by byte: the group, and either pid and role or pid 0 at a node that is no gateway or master |
| Server.DimmerAfter | mbed528/uttec528/UttecProc/procServer.cpp:29-138 | the dimmer after any request: the target is the request's level after a control request for a node that is no gateway, or an alternating one of its parity; forced from then until released; a gateway switches at once; otherwise unchanged |
| Server.LastSetting | mbed528/uttec528/UttecProc/procServer.cpp:204-244 | over any run of requests a node's target is the level of the last request that set it, and it is forced iff no later one released it |
| Server.NeverSet | mbed528/uttec528/UttecProc/procServer.cpp:204-244 | and without such a request the target stays and a release is for good |
| Server.StatusIsAnswer | mbed528/uttec528/UttecProc/procServer.cpp:151-172 | and carries the traffic, monitor and photo readings at their bytes, low byte first, and changes no other |
| Server.PowerIsAnswer | mbed528/uttec528/UttecProc/procServer.cpp:174-194 | and carries the power reading, lowest byte first, and changes no other byte |
| Server.ReadingsOnlyReported | mbed528/uttec528/UttecProc/procServer.cpp:151-194 | what a node becomes does not depend on its readings |
| Server.AtMostOneAnswer | mbed528/uttec528/UttecApp/UttecUtil.cpp:387-410 | with unique addresses at most one node answers a request, the one addressed exactly |
| Server.AddressAfter | mbed528/uttec528/UttecProc/procServer.cpp:69-98 | only a new factory setting to exactly this node changes its stored frame: pid, group, High and Low become the request's, the role if it is one to hand out, every other byte stays |
| Server.UniqueAfter | mbed528/uttec528/UttecProc/procServer.cpp:69-98 | addresses stay unique after a request iff it hands out none in use |
| Server.AddressHandedOutTwice | mbed528/uttec528/UttecProc/procServer.cpp:69-98 | two lamps and a new factory setting after which they share an address |
| Server.StaysUnique | mbed528/uttec528/UttecProc/procServer.cpp:69-98 | so they do over any run of such requests |
| Server.AtMostOneEver | mbed528/uttec528/UttecProc/procServer.cpp:204-244 | and at most one node answers each request of the run |
| Server.ServerNode.SetAckFrame | mbed528/uttec528/UttecProc/procServer.cpp:140-147 | the request is overwritten with the acknowledgement |
| Server.ServerNode.ControlSub | mbed528/uttec528/UttecProc/procServer.cpp:29-49 | node, frame and verdict after a control request |
| Server.ServerNode.NewSetSub | mbed528/uttec528/UttecProc/procServer.cpp:50-67 | after a release request |
| Server.ServerNode.NewFactSetSub | mbed528/uttec528/UttecProc/procServer.cpp:69-108 | after a new factory setting |
| Server.ServerNode.AltSub | mbed528/uttec528/UttecProc/procServer.cpp:110-138 | after an alternating request |
| Server.ServerNode.StatusSub | mbed528/uttec528/UttecProc/procServer.cpp:151-172 | after a status request |
| Server.ServerNode.PowerReadSub | mbed528/uttec528/UttecProc/procServer.cpp:174-193 | after a power reading |
| Server.ServerNode.Task | mbed528/uttec528/UttecProc/procServer.cpp:204-244 | after any request |
| Routing.AckRoute | mbed528/uttec528/UttecProc/proc485.cpp:121-141 | a route carries an acknowledgement to its end iff its radio hops are gateways or masters and the others are transmitters followed by at most one gateway; only role and LoRa CRC bytes change |
| Routing.OneGateway | mbed528/uttec528/UttecProc/proc485.cpp:121-132 | a gateway or master that stamps on such a route is the last to stamp |
| Routing.StampedEnds | mbed528/uttec528/UttecProc/procSx1276.cpp:332-354 | an acknowledgement stamped or sent by a gateway or master gets along a route iff nobody on it stamps, that is by radio through gateways and masters only, and then unchanged |
| Routing.LoRaHopSealed | mbed528/uttec528/UttecProc/procSx1276.cpp:332-354 | after a LoRa hop the frame passes the nested checks |
| Routing.RelaysExactly | mbed528/uttec528/UttecProc/procRf.cpp:326-350 | which nodes transmit a request on from which medium to which, by role and address alone, on all three transports |
| Routing.UnaddressedSends | mbed528/uttec528/UttecProc/proc485.cpp:89-119 | everything a node that is not addressed transmits, in order, on all three transports, retuning and repetition included; the node itself is unchanged |
| Routing.RepeatsExactly | mbed528/uttec528/UttecProc/procRf.cpp:57-65 | a repeater repeats what a transmitter, gateway or master sent, nobody else repeats |
| Routing.RequestRoute | mbed528/uttec528/UttecProc/proc485.cpp:89-119 | a request set out on a medium arrives behind any list of nodes, each hearing it on the medium the one before sends on, iff each relays it from that medium, judged on the request as it set out; it arrives unchanged up to seals |
| Routing.SameEffect | mbed528/uttec528/UttecProc/procServer.cpp:204-244 | there it has the effect and the answer it would have had without the seals |
| Routing.AnswerIsSent | mbed528/uttec528/UttecProc/procRf.cpp:274-289 | an addressed node transmits its answer, up the line or by radio by its role, and besides that at most repeats the request |
| Routing.AnswerReturns | mbed528/uttec528/UttecProc/procSx1276.cpp:310-354 | an answer is given and comes back along given hops to a server listening on a given medium iff the node is one to answer, was not reached over RS-485 and the hops lead there: none for a gateway or master, heard on the line; none for another node heard where it sends; otherwise onto the line, one gateway off the radio if it was sent there and then transmitters and at most one gateway |
| Routing.ServerHearsBack | mbed528/uttec528/UttecProc/procServer.cpp:204-244 | request out, answer back: the exact stops, node, hops and listening medium for which the server hears an acknowledgement, the media joining up all the way, and that it is the one the node would have given directly |
| Routing.StatusByRadio | mbed528/uttec528/UttecProc/procRf.cpp:326-353 | one such journey: line, gateway, radio, lamp, radio, gateway, line |
| Routing.Relay.On485Request | mbed528/uttec528/UttecProc/proc485.cpp:89-119 | node, frame and transmissions, in order |
| Routing.Relay.OnSxRequest | mbed528/uttec528/UttecProc/procSx1276.cpp:310-330 | node, frame and transmissions, in order |
| Routing.Relay.OnRfRequest | mbed528/uttec528/UttecProc/procRf.cpp:326-350 | node, frame and transmissions, in order |
| Routing.Relay.ResendByRfRepeater | mbed528/uttec528/UttecProc/procRf.cpp:57-65 | a repeater passes on unchanged what a transmitter, gateway or master sent |
| Routing.Relay.ReturnToServer | mbed528/uttec528/UttecProc/procRf.cpp:274-289 | up the line from a gateway or master, by radio from all others |
| Routing.Relay.On485Ack | mbed528/uttec528/UttecProc/proc485.cpp:121-141 | one hop of an acknowledgement |
| Routing.Relay.OnSxAck | mbed528/uttec528/UttecProc/procSx1276.cpp:332-354 | one hop over LoRa |
| Routing.Relay.OnRfAck | mbed528/uttec528/UttecProc/procRf.cpp:351-353 | one hop by radio, which `Routing.AckRoute` and `Routing.AnswerReturns` put on routes |
| DimmerRamp.ApproachBetween | mbed528/uttec528/UttecApp/mSecExe.cpp:58-67 | a step ends between the old level and the target, and nearer unless already there |
| DimmerRamp.LevelBounded | mbed528/uttec528/UttecApp/mSecExe.cpp:94-106 | in any run level and target stay within the bounds of start and limits |
| DimmerRamp.NeverCrosses | mbed528/uttec528/UttecApp/mSecExe.cpp:51-106 | in any run with limits up to 100 percent the level stays in [0, 1] and no tick carries it past the target |
| DimmerRamp.PirFollows | mbed528/uttec528/UttecApp/mSecExe.cpp:94-106 | the level after any number of ticks without a trigger, to the unit: 0.5 percent a tick up or 0.03 down towards the target, and towards Low once the delay is over |
| DimmerRamp.RampFollows | mbed528/uttec528/UttecApp/mSecExe.cpp:107-125 | the same for the volume sensor at 1 percent a tick and for test mode and daylight at 0.01 |
| DimmerRamp.RampReaches | mbed528/uttec528/UttecApp/mSecExe.cpp:107-125 | so the whole range takes 100 ticks, or 10000 |
| DimmerRamp.TickReports | mbed528/uttec528/UttecApp/mSecExe.cpp:51-78 | every tick of the ramp reports the level as pwm and current, records its steps, and writes the lamp inverted off the target only |
| DimmerRamp.ForcedFollows | mbed528/uttec528/UttecApp/mSecExe.cpp:84-93 | a forced node, tick by tick: it waits for the next multiple of 20 of its 32-bit counter, writes its level once, and then does nothing |
| DimmerRamp.ForcedLevelShown | mbed528/uttec528/UttecApp/mSecExe.cpp:84-93 | a level newly forced is on the lamp, inverted, after 20 ticks at the latest and stays; the ramp does not move |
| DimmerRamp.OtherUntouched | mbed528/uttec528/UttecApp/mSecExe.cpp:126-128 | an unforced node with another sensor does nothing |
| DimmerRamp.TriggersApart | mbed528/uttec528/UttecApp/mSecExe.cpp:143-146 | after a tick that triggers, motion triggers again at the 500th tick and not before |
| DimmerRamp.Settles | mbed528/uttec528/UttecApp/mSecExe.cpp:94-106 | without triggers the level is Low from delay + 3334 ticks on |
| DimmerRamp.QuietRun | mbed528/uttec528/UttecApp/mSecExe.cpp:215-227 | a run without triggers is that many quiet ticks, whatever the sensor and the noise block do |
| DimmerRamp.LevelGoesLow | mbed528/uttec528/UttecApp/mSecExe.cpp:137-152 | after the last trigger of any run the level is Low/100 within DTime*1000 + 3334 ticks and from then on |
| DimmerRamp.LampAtRest | mbed528/uttec528/UttecApp/mSecExe.cpp:51-78 | from then on the lamp shows the low limit to within one step, unless DTime is 0 or High equals Low and the level at the trigger was one step from Low: then no tick has written it and it is as it was |
| DimmerRamp.LampNeverWritten | mbed528/uttec528/UttecApp/mSecExe.cpp:51-78 | with High and Low at 50 the lamp stays at its power-up duty of 0.3 in every run, the level at 0.5 |
| DimmerRamp.MSecExe.ProcDimming | mbed528/uttec528/UttecApp/mSecExe.cpp:51-78 | one step of the ramp, every field |
| DimmerRamp.MSecExe.SwitchDim | mbed528/uttec528/UttecApp/mSecExe.cpp:80-129 | one tick for every sensor type, forced or not |
| DimmerRamp.MSecExe.PirSensor | mbed528/uttec528/UttecApp/mSecExe.cpp:132-152 | motion triggers once the hold-off has run out, and restarts it |
| DimmerRamp.MSecExe.MsecTask | mbed528/uttec528/UttecApp/mSecExe.cpp:215-227 | one tick of an unforced PIR node |
| LoadCell.AverageBounded | mbed528/uttec528/sensor/HX711.cpp:95-114 | if all samples lie in [lo, hi] so does every average, despite truncation |
| LoadCell.RunSound | mbed528/uttec528/sensor/HX711.cpp:95-114 | the running total always is that many samples' worth |
| LoadCell.WarmUpMean | mbed528/uttec528/sensor/HX711.cpp:99-107 | up to eight samples the average is their mean, truncated |
| LoadCell.QuotTruncates | mbed528/uttec528/sensor/HX711.cpp:107 | towards zero: the remainder has the sign of the dividend |
| LoadCell.TareFollows | mbed528/uttec528/sensor/HX711.cpp:108-112 | the 32nd sample after power-up or a reset fixes the offset at its average, for good |
| LoadCell.ResetTares | mbed528/uttec528/sensor/HX711.cpp:48-57 | a reset clears the offset and lets the tare run once more |
| LoadCell.Approaches | mbed528/uttec528/sensor/HX711.cpp:103-107 | under constant input v each call reaches v or brings the total nearer to 8v |
| LoadCell.Converges | mbed528/uttec528/sensor/HX711.cpp:103-107 | so the average is v after at most abs(total - 8v) calls and stays v |
| LoadCell.CallsBounded | mbed528/uttec528/sensor/HX711.cpp:95-114 | in any history of samples and resets whose late resets, times each bound, stay within 7, every average lies between the bounds |
| LoadCell.ResetsExactly | mbed528/uttec528/sensor/HX711.cpp:48-57 | all histories with at most r resets after the eighth sample are safe iff r*lo >= -7 and r*hi <= 7 |
| LoadCell.ResetsWithoutEnd | mbed528/uttec528/sensor/HX711.cpp:48-57 | no bounds but 0 are safe for every number of resets |
| LoadCell.StaysBetween | mbed528/uttec528/sensor/HX711.cpp:103-107 | once an average of a warm cell is between the bounds, all that follow without a reset are |
| LoadCell.ResetBreaksBound | mbed528/uttec528/sensor/HX711.cpp:48-57 | eight samples of 100, a reset and a ninth sample of 100 average to 112 |
| LoadCell.HX711.Averageing | mbed528/uttec528/sensor/HX711.cpp:95-114 | one call is one sample, statics, tare and offset included |
| LoadCell.HX711.ResetHX711 | mbed528/uttec528/sensor/HX711.cpp:48-57 | the fields are cleared, the statics are not |
| CircularBuffer.FirstInFirstOut | mbed518/uttec518/mbed/TARGET_NRF51_DK/arm_math.h:5986-6080 | from any equal offsets, any sequence of block writes and reads with at most L outstanding reads exactly what was written, in order, across wraparounds |
| CircularBuffer.SplitInvariant | mbed518/uttec518/mbed/TARGET_NRF51_DK/arm_math.h:5986-6080 | cutting the same data into other blocks makes no difference |
| CircularBuffer.WriteHolds | mbed518/uttec518/mbed/TARGET_NRF51_DK/arm_math.h:5986-6024 | a block written keeps everything outstanding and the offset below L |
| CircularBuffer.ReadHolds | mbed518/uttec518/mbed/TARGET_NRF51_DK/arm_math.h:6030-6080 | a block read is the next stretch of what was written |
| CircularBuffer.Buffer.CircularWrite | mbed518/uttec518/mbed/TARGET_NRF51_DK/arm_math.h:5986-6024 | the loop stores the block cell by cell from the write offset, wrapping |
| CircularBuffer.Buffer.CircularRead | mbed518/uttec518/mbed/TARGET_NRF51_DK/arm_math.h:6030-6080 | the loop leaves in the destination its old contents with the block placed over them from the given position, wrapping |
| CircularBuffer.Placed | mbed518/uttec518/mbed/TARGET_NRF51_DK/arm_math.h:6058-6066 | which puts the last destination's worth of the block in place and touches no cell the block does not reach |

## Left out

- Hardware: radio, flash, PWM, ADC, UART, watchdog and LED access, waits and console output; transmissions are emitted values, timers are events.
- Null arguments: `gen_crc16` returns 0 for a null pointer; a byte sequence is never null. Lengths are unbounded here and 16 bits wide in the code.
- Modbus.ModBus.GenerateModRtu: requires the frame to fit the 70-byte transmit buffer; the code copies without a check.
- Modbus.ModBus.SetModRData: requires two to seventy stored characters; with one the code reads its CRC from ahead of the buffer.
- Modbus.ModBus.IsRtuDone: the same at the moment silence falls.
- Modbus.ModBus.SetModAData: requires four to 67 characters under the LRC; with fewer the lengths wrap around and the code reads beyond the text.
- Modbus.ModBus.EndAscii: the same for the line feed that ends the text.
- Modbus.AsciiDetects: for a text of odd length the last character the LRC covers is also the first digit of the LRC read, and a change of it is left out.
- Modbus.ModBus.ParseModRtu: requires the write pointer to be inside the 70-byte raw buffer; the code has no such check and memory beyond the buffer is not modelled.
- Modbus.ModBus.ParseModAscii: requires the read and write positions to be inside the 70-byte raw buffer; idle noise moves the pointer without bound in the code and is not modelled further.
- Modbus.ModBus.GenerateModAscii: requires at most 30 data bytes, which is what the 70-byte transmit buffer holds.
- Modbus.RtuRoundTrip: four data bytes only; for other lengths `Modbus.AfterSilence` says what the fixed six-byte check does.
- PingPong.Board.ReceiveTimeout: when a 64-byte frame has been received the zero the code stores lands behind the buffer; the model drops it.
- PingPong liveness: two silent slaves never transmit again, so none is claimed.
- PingPong events are not tied to the radio's timing: a completion or timeout may come at any moment, which only adds runs.
- PingPong interrupts anywhere else than during the wait and between iterations, inside a copy for example, are not modelled.
- DimmerRamp.MSecExe.ProcDimming: levels are integers in units of 1/10000, so the rounding of `float` steps is not captured, nor is the DAC copy of the level.
- DimmerRamp.MSecExe.SwitchDim: the same.
- DimmerRamp.MSecExe.PirSensor: the command written into the stored frame, the sensor flag and the traffic flag on a trigger are left out.
- DimmerRamp.MSecExe.MsecTask: PIR nodes in unforced mode; volume, daylight and vibration sampling and the level written back every 500 ticks are left out.
- LoadCell.HX711.Averageing: the width of `long` is not modelled, totals are unbounded integers; reading the converter is a parameter.
- Server.ServerNode.Task: the lamp test behind the monitoring request is reduced to the last level it writes.
- Server handlers: flash writes and waits are omitted.
- Bus.LineIsBroadcast: a device sends nothing while characters of an open window are in its buffer, as its other tasks may do in the code; `Bus.SendKeepsStep` and `Bus.SentTextJudged` say what becomes of the window then. Every device polls between the end of one request and the next brace or the 70th character behind it, which a window needs to survive; what nodes transmit on hearing a request is in `Routing`.
- Other commands of the three tasks (volume, sensor, repeat, search, daylight), provisioning by `sendSet` and the halting loops `conflictTx` and `alertFaultSet`.
- Repeater loops: `resendByRfRepeater` forwards the frame with the sender's role unchanged, so freedom from loops is not claimed.
- Routing.ServerHearsBack: which nodes hear which transmissions is given by the stops and hops; the receive side of radio and LoRa is taken to accept them, as the code calls neither `isOkCheckSum` nor `SxRxCrc` there.
- Channel hopping: `sendRf` repeats the same frame on several channels; one transmission is modelled, and `changeGroup` is recorded but has no effect on reception.
- Sealing.RfSealPasses: reception is `isOkCheckSum`, whose call in `receiveAction` is commented out; the radio's own hardware CRC is not part of this model.
- One device's own echo: `m485Data` is both transmit and receive buffer, which `Rs485.Port` keeps, and the round trip is stated between two devices.
- Test frames of the serial port (`parseTestData`, `isAnyDone`), the key codes of `returnRcuCode` and `procRcu`.
- CircularBuffer.Buffer.CircularRead: unit strides only.
- CircularBuffer.Buffer.CircularWrite: unit strides only, and buffers up to the 65536 elements the 16-bit offset can address.
- The remaining CMSIS headers, `schedule.cpp`, the `main` files beyond the polling of RS-485, and the device drivers.
