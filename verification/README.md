# Verified models of panda

Dafny models of the parts of panda that carry state or arithmetic, with proofs of what they promise.
`dafny verify dfyconfig.toml` checks all of it. Five groups are modelled; a class stands for every
object or group of globals that the code updates in place, and each of its methods is proved against
a function of the old state about which the theorems are then stated.

1. **Bootstub arithmetic.** `Montgomery` and `Exponentiation` hold the word-by-word Montgomery
   multiplication of `crypto/rsa.c`, for every number of words. The code subtracts the modulus only on
   a carry out, and once more at the end; the proofs show why the first is enough and exactly when the
   second is. `RsaVerify` is the signature check, `Sha1` the streaming hash against the definition of
   FIPS 180-4, with the example digest of RFC 3174 in `Sha1Example`. `Arith`, `Bytes` and `Bignum` are
   the numbers underneath; `Wrappers` is the option type.
2. **Safety layer.** `Steering`, `Samples` and `SteeringRuns` are the torque limits over whole runs of
   frames, with real time as an unbounded number that the firmware sees through its 32-bit timer.
   `SafetyState`, `RxChecks`, `ToyotaHooks` and `SafetySteps` are the state machine of received and
   transmitted frames, 1 Hz ticks and host requests, with the Toyota mode as the concrete car;
   `SafetyLayer` is the class with the code's own updates, and `SafetyRuns` the theorems over runs.
   `TorqueRuns` has the torque limits, `MessageRuns` the age and soundness of messages in real time, and
   `HeartbeatRuns` modes and heartbeats, over runs that mix frames, ticks and requests. `ToyotaBytes` and
   `ToyotaFrames` tell what the Toyota mode takes in and lets out in terms of the bytes of a frame.
   Modes other than Toyota, SILENT and NOOUTPUT are there with arbitrary hooks, so what is proved
   about the heartbeat holds in all of them.
3. **CAN byte stream.** `CanPacket` is the layout with 64 data bytes, `CanRing` the queue, `CanComms`
   the chunked reads and writes of the firmware with the transmit queues behind them, `PandaPacking` the
   Python side.
4. **Framing.** `IsoTp` and `IsoTpTransfer` are ISO 15765-2 segmentation between two endpoints under
   any schedule of deliveries, `IsoTpFaults` lost, doubled and reordered frames; `Spi` is the SPI device
   machine and the host's transfer against it.
5. **Checksums.** `Crc` relates generated tables, byte loops and the branchy Chrysler code to the
   plain bit-by-bit CRC, `CrcExample` that to the published check values, and `CrcFrames` gives the residue
   a receiver finds.

What an operation has in common with its specification, such as how bytes are read, what the timer
measures, or which bytes go over a wire, is stated on its own as well, in numbers.

Some properties that the code might be expected to have do not hold. For each there is the
condition under which the code does meet it, and inputs that fail it, named here where the condition
alone does not give them:

- The final subtraction of `modpow` gives the true power exactly when the value of its Montgomery chain
  is below twice the modulus, which is about the chain itself (`Exponentiation.ModPowCorrect`). What a
  caller can check beforehand goes one way: a modulus that uses its top bit, or an input below the
  modulus, is enough (`Exponentiation.FullWidthModulus`). Without either, a well-formed key of 32 words
  and an input of 1024 bits give a result above the modulus (`Exponentiation.NarrowModulusFails`). A
  1024-bit modulus meets the condition.
- The verification primitive RSAVP1 (section 5.2.2 of RFC 8017) refuses a signature that is not below
  the modulus; `RSA_verify` does not look. It accepts a signature t at or above the modulus exactly when
  it accepts t less the modulus (`RsaVerify.RangeUnchecked`), so every accepted signature that leaves
  room has a twin out of range (`RsaVerify.OutOfRangeTwin`). `RsaVerify.AcceptedOutOfRange` gives a
  full-width key, a signature and its twin that are both accepted.
- Moving the torque towards zero by *less* than `max_rate_down` is refused when the samples demand a
  faster return. A full step is always accepted (`SteeringRuns.WindDownAccepted`); which smaller ones
  are is `SteeringRuns.PartialWindDown`, and `SteeringRuns.PartialWindDownRefused` refuses one.
- A peer that asks an ISO-TP sender for blocks of two or more frames can be sent consecutive frames
  without data, because the end of a block is not limited to the payload. `IsoTpTransfer.SurplusFrames`
  says when, and `IsoTpTransfer.SurplusFrameRejected` shows such a transfer failing at a receiver of the
  same class. What the frames carry is the payload all the same (`IsoTpTransfer.BlocksCarryPayload`),
  and the block sizes 0 and 1 that the class itself asks for never lead to surplus frames.
- The sequence numbers of ISO-TP frames count modulo 16. A consecutive frame less than 16 places off is
  always noticed (`IsoTpFaults.FaultsDetected`); 16 frames lost in a row are not
  (`IsoTpFaults.SixteenLostUnnoticed`), as the receiver takes a frame exactly when its number agrees modulo
  16 (`IsoTpFaults.NextNumber`).
- The age of a message is measured by a 32-bit microsecond timer: a message is late exactly when its age
  modulo 2^32 is above the limit (`MessageRuns.LaggingExactly`), so one that is a whole turn old, more than
  an hour, counts as fresh at that moment.
- A first frame announces the length of its payload exactly up to 4095 bytes; longer payloads are sent
  under a wrong length (`IsoTp.LongPayloads`), and from 2^16 on packing raises an exception
  (`IsoTp.IsoTpMessage.Send`).
- The host packs addresses of 2^29 and above and buses of 8 and above into neighbouring header fields.
  The round trip holds exactly for lists without them (`PandaPacking.RoundTripExactly`).
- The SPI device acknowledges every header with a right checksum and compares no announced length with
  its buffers (`Spi.AnnouncedSizes`). Whatever follows, all bytes received and sent stay inside them
  exactly when at most 2040 bytes of data are announced and, for the requests whose answer is as long as
  the host asks (CAN reads and the test endpoint), at most 2044 bytes are asked for (`Spi.FitsExactly`).
  The sizes of the host's own transfers fit; a CAN read of 65535 bytes does not
  (`Spi.LongReadOverruns`), nor does a write of 2041 (`Spi.LongWriteOverruns`).

Modelling conventions: C integers are unbounded where the code cannot reach their limits, and wrap
explicitly where it can (64-bit accumulators are a subset type, so every assignment proves that it
does not wrap; timers and counters are taken modulo 2^32, the SHA byte count modulo 2^64). Bytes are
numbers below 256 with a bitwise exclusive or defined on numbers; SHA-1 and the CRCs use bit vectors.
Bit fields that do not overlap are joined by addition where the code uses `|`. A mode change sets the
torque timestamps to 0, which is the state a reset leaves at the last moment the timer wrapped; the
run theorems take that moment as the start, or allow one window move more from the mode change on.
Interrupt-safe operations are one step each. Calls into
code outside the model (the safety verdict and the CAN controller in `CanComms`, command handlers
behind SPI, hooks of other modes, angle checks) are arbitrary parameters or arbitrary choices.

## Model

| member | source | states |
|---|---|---|
| `Montgomery.SubM` | crypto/rsa.c:32-41 | borrow loop in place: the array holds its old value minus the modulus, plus R = 2^(32 len) when that is negative |
| `Montgomery.GeM` | crypto/rsa.c:44-53 | the word-by-word comparison from the top decides value >= modulus |
| `Montgomery.LowWordCancels` | crypto/rsa.c:60-62 | with n0inv * n[0] = -1 modulo 2^32, adding d0 * n[0] clears the low word |
| `Montgomery.StepExact` | crypto/rsa.c:56-78 | c + a * b + d0 * n is divisible by 2^32, so dropping the low word loses nothing |
| `Montgomery.MontStepCorrect` | crypto/rsa.c:56-78 | if c < b + n and c < R, one step stays below b + n and below R with a single subtraction on carry, and multiplied by 2^32 is congruent to c + a * b |
| `Montgomery.MontMulAdd` | crypto/rsa.c:56-78 | the interleaved 64-bit carry loops compute exactly one such step; no accumulator exceeds 64 bits and the carry out is 0 or 1 |
| `Montgomery.MontProdCorrect` | crypto/rsa.c:81-92 | for every word count, and all a and b < R, the product c satisfies c * R = a * b modulo n, c < R and c < b + n |
| `Montgomery.MontMul` | crypto/rsa.c:81-92 | the loop over the words of a computes that product |
| `Exponentiation.ReadWords` | crypto/rsa.c:104-112 | the little-endian words have the value of the big-endian input bytes |
| `Exponentiation.WriteWords` | crypto/rsa.c:134-141 | the big-endian output bytes have the value of the words |
| `Exponentiation.SquaredCorrect` | crypto/rsa.c:116-120 | k Montgomery squarings of x * R are congruent to x^(2^k) * R |
| `Exponentiation.Exponentiate` | crypto/rsa.c:114-127 | both exponent branches leave the Montgomery chain for x^3 or x^65537 in the result words |
| `Exponentiation.ModPowCorrect` | crypto/rsa.c:96-142 | the written result is congruent to x^e (RSAVP1, section 5.2.2 of RFC 8017); before the last subtraction the chain is below x + n; the result is x^e mod n if and only if the chain was below 2n |
| `Exponentiation.FullWidthModulus` | crypto/rsa.c:129-132 | with 2n >= R, or an input below n, which a caller can check, the result is exactly x^e mod n |
| `Exponentiation.ProdQuotient` | crypto/rsa.c:56-92 | while b + n fits the words, the product times 2^(32 len) is exactly a * b + d * n for some d below 2^(32 len), and below b + n |
| `Exponentiation.ProductIs` | crypto/rsa.c:81-92 | under that condition, and with n invertible modulo R, a number that solves the quotient equation is the Montgomery product |
| `Exponentiation.NarrowModulusFails` | crypto/rsa.c:129-132 | a 32-word key that passes the length and exponent checks of the only caller, with rr below n, and an input below R for which the result is at or above n |
| `Exponentiation.ModPow` | crypto/rsa.c:96-142 | the byte buffer is overwritten with the big-endian bytes of the reduced chain |
| `RsaVerify.XorTailMatches` | crypto/rsa.c:264-291 | exclusive-or of the hash into the tail followed by comparison with the padding is comparison with the whole encoding |
| `RsaVerify.RSAVerify` | crypto/rsa.c:222-294 | accepts only supported keys and lengths with signature^e congruent to the encoding; for a full-width modulus, or a signature below the modulus, if and only if signature^e mod n is 00 01, 105 bytes FF, 00 and the hash |
| `RsaVerify.RangeUnchecked` | crypto/rsa.c:222-262 | the range check of RSAVP1 (section 5.2.2 of RFC 8017) is missing: with a full-width modulus a signature t at or above n is accepted if and only if t - n is |
| `RsaVerify.OutOfRangeTwin` | crypto/rsa.c:222-262 | every accepted signature s with s + n below R has an accepted twin: the bytes of s + n |
| `RsaVerify.AcceptedOutOfRange` | crypto/rsa.c:222-262 | a well-formed 32-word key with a full-width modulus, a signature below the modulus and one at or above it, both accepted for the zero hash |
| `RsaVerify.SignedImagesVerify` | crypto/sign.py:34-36 | for exponents that undo each other, what the signer writes passes that test for its hash and for no other hash |
| `RsaVerify.EncodingBelowModulus` | crypto/sign.py:34-35 | the encoding the signer raises to its private exponent is below every full-width 1024-bit modulus |
| `Sha1.BitTricks` | crypto/sha.c:63-70 | the three-operation and or-forms of the round functions equal Ch and Maj of section 4.1.1 of FIPS 180-4 |
| `Sha1.RotationValue` | crypto/sha.c:34-34 | rotations by 1, 5 and 30 as multiplication and division modulo 2^32 |
| `Sha1.WordValue` | crypto/sha.c:42-48 | four octets make the number they are in base 256, most significant first |
| `Sha1.RoundSumIsT` | crypto/sha.c:60-71 | the sum the code forms in each of the 80 rounds is the T of section 6.1.2, whatever the order of additions |
| `Sha1.ShaCtx.Schedule` | crypto/sha.c:42-52 | the filled array is the message schedule of the buffered block |
| `Sha1.ShaCtx.Sha1Transform` | crypto/sha.c:36-84 | one block updates the five state words as the compression function of FIPS 180-4 does |
| `Sha1.BlocksExtend` | crypto/sha.c:105-118 | blocks already processed do not depend on the bytes that follow |
| `Sha1.ShaCtx.constructor` | crypto/sha.c:94-102 | the initial state holds the empty message |
| `Sha1.ShaCtx.AbsorbByte` | crypto/sha.c:111-117 | after each byte the state holds all complete blocks and the buffer exactly the rest |
| `Sha1.ShaCtx.Update` | crypto/sha.c:105-118 | absorbing data appends it to what was absorbed, wherever the block boundaries fall |
| `Sha1.ZeroCountLeast` | crypto/sha.c:127-129 | the zeros the padding loop adds are the fewest that leave 56 bytes modulo 64 (section 5.1.1) |
| `Sha1.ShaCtx.AppendPadding` | crypto/sha.c:126-129 | the loop stops, having added 80 and exactly those zeros |
| `Sha1.ShaCtx.AppendLength` | crypto/sha.c:143-159 | the eight unrolled byte updates append the 64-bit length, most significant byte first |
| `Sha1.ShaCtx.Final` | crypto/sha.c:121-170 | the first 20 bytes of the buffer are the SHA-1 of everything absorbed |
| `Sha1.ShaHash` | crypto/sha.c:173-179 | the convenience function returns the one-shot SHA-1 of its input |
| `Sha1.HashPieces` | crypto/sha.c:105-170 | for every split of the input into pieces, updating and finishing gives the one-shot SHA-1 of the whole |
| `Sha1Example.AbcDigest` | crypto/sha.c:173-179 | the digest of "abc" is A9993E36 4706816A BA3E2571 7850C26C 9CD0D89D (TEST1 of section 7.3 of RFC 3174) |
| `Samples.Sample.Update` | board/safety.h:462-479 | the window holds the last six samples, newest first, and min and max are their true extremes |
| `Samples.Sample.Reset` | board/safety.h:353-359 | a reset leaves a window of zeros with extremes 0 |
| `Samples.WindowIsLastSix` | board/safety.h:462-479 | after six samples, an extreme of the window is an extreme of the last six samples and conversely |
| `Steering.SteerTorque.SteerTorqueCmdChecks` | board/safety.h:600-683 | decides a torque frame and updates all six state variables as the specification step does, including the reset on violation or without controls |
| `Steering.SteerTorque.CheckLimits` | board/safety.h:604-628 | the checks while controls are allowed, and what they leave in the last torque and the real-time window |
| `Steering.SteerTorque.CheckRequestBit` | board/safety.h:635-670 | the request-bit tolerance: verdict, both counters and the mismatch time |
| `Steering.SteerTorque.ResetForMode` | board/safety.h:403-415 | setting a mode clears the torque state and both sample windows |
| `SteeringRuns.AcceptedExactly` | board/safety.h:600-628 | a frame with controls is accepted if and only if its torque is within the maximum, the rate, the real-time window and what the samples leave free, and the request bit may be as it is; without controls, if and only if it asks for no torque |
| `SteeringRuns.DriverBounds` | board/safety.h:508-512 | what the driver leaves free: the maximum plus the factor times the allowance and the driver torque, and its mirror image |
| `SteeringRuns.AcceptedWithinSamples` | board/safety.h:486-523 | over any run, an accepted torque that has not come down by a full step since the last accepted one is within the motor extremes plus the error, or within what the driver leaves free |
| `SteeringRuns.ElapsedExactly` | board/utils.h:43-47 | the 32-bit timer measures real time exactly, up to whole turns |
| `SteeringRuns.WindowMovesExactly` | board/safety.h:619-627 | the real-time window moves to the torque of the first accepted frame more than an interval of real time after it last moved, and stays until then |
| `SteeringRuns.CheckpointInvariant` | board/safety.h:619-627 | over any run, the real-time torque is at most max_rt_delta times the number of window moves, which are at least max_rt_interval + 1 of real time apart |
| `SteeringRuns.RealTimeBound` | board/safety.h:619-627 | every accepted torque at time T is within max_rt_delta * (1 + floor((T - T0) / (max_rt_interval + 1))) of zero, T0 being the last reset, for unbounded time over a wrapping timer |
| `SteeringRuns.BudgetAfterModeChange` | board/safety.h:619-627 | counted from the mode change or the last reset after it, whatever the timer shows at the change, the same bound with one more window move |
| `SteeringRuns.RampBound` | board/safety.h:486-499 | after k accepted frames since the last reset the torque is at most min(max_steer, k * max_rate_up) |
| `SteeringRuns.ReachableInvariant` | board/safety.h:604-628 | in every reachable state the last torque is within max_steer and within the real-time window |
| `SteeringRuns.WindDownAccepted` | board/safety.h:486-523 | from such a state a full step towards zero is accepted whatever the samples and the time are |
| `SteeringRuns.WindDownRun` | board/safety.h:486-523 | every frame of a wind-down is accepted and the magnitude after n of them is the first magnitude less n * max_rate_down, or 0 |
| `SteeringRuns.WindDownReachesZero` | board/safety.h:486-523 | the last magnitude divided by max_rate_down, rounded up, frames reach zero |
| `SteeringRuns.PartialWindDown` | board/safety.h:493-498 | a smaller step towards zero is accepted if and only if it ends below what the samples leave free, or was a full step |
| `SteeringRuns.PartialWindDownRefused` | board/safety.h:493-498 | a concrete smaller step that is refused while the full step is accepted |
| `SteeringRuns.OpposingDriver` | board/safety.h:502-522 | while the driver opposes in every frame, accepted torque obeys t_k <= max(t_0 - k * max_rate_down, 0) |
| `SteeringRuns.OpposingDriverMirrored` | board/safety.h:502-522 | the same for negative torque |
| `SteeringRuns.MirrorStep` | board/safety.h:600-683 | negating torque and samples mirrors the verdict and the next state |
| `SteeringRuns.OpposingSamples` | board/safety.h:502-512 | six driver samples at or below the torque that uses up the allowance make a frame opposing |
| `SteeringRuns.StreakInvariant` | board/safety.h:635-670 | the two request counters and the mismatch time are the lengths of the current streaks and the time of the last cut or reset |
| `SteeringRuns.CutsAreRare` | board/safety.h:635-670 | every accepted cut that starts a streak follows min_valid_request_frames matching frames and min_valid_request_rt_interval of elapsed time, and no streak of cuts exceeds max_invalid_request_frames |
| `SteeringRuns.CutsExactly` | board/safety.h:635-670 | with tolerance, a cut is accepted if and only if the frame would be with the bit set, and it continues a streak that is not too long, or starts one after enough matching frames and enough real time since the last cut or reset |
| `SteeringRuns.NoCutsWithoutTolerance` | board/safety.h:638-641 | without tolerance no accepted frame has a low request bit under torque |
| `RxChecks.FirstMatch` | board/safety.h:133-140 | finds the first alternative of an entry that a frame matches in address, bus and length |
| `RxChecks.FindEntry` | board/safety.h:125-154 | finds the first monitored entry a frame belongs to; an entry that has seen one alternative accepts only that one |
| `RxChecks.WrongCountersInvalidate` | board/safety.h:163-170 | after n wrong counters the count is min(old + n, 5), and five or more in a row leave any message invalid |
| `RxChecks.RightCountersRecover` | board/safety.h:163-170 | after n right counters the count is max(old - n, 0) |
| `RxChecks.ValidAfterFrame` | board/safety.h:163-205 | an entry is valid after one of its frames if and only if the checks it asks for passed, and a wrong counter follows on fewer than four |
| `ToyotaHooks.ToyotaComputeChecksum` | board/safety/safety_toyota.h:28-36 | for every length, the 8-bit accumulation is the sum of address bytes, length and the data before the checksum byte, modulo 256 |
| `ToyotaHooks.GenericOutcome` | board/safety.h:320-346 | what the four checks amount to: controls survive if and only if there is no gas edge (unless allowed), no brake edge, no brake while moving, and the same for regen; the previous flags follow |
| `ToyotaBytes.CommandBytes` | board/safety/safety_toyota.h:173-180 | acceleration is bytes 0 and 1 and torque bytes 1 and 2, signed and most significant first; the steer request is bit 0 of byte 0 |
| `ToyotaBytes.MeasuredBytes` | board/safety/safety_toyota.h:59-76 | motor torque is bytes 5 and 6 in hundredths of the factor, rounded towards zero; driver torque is bytes 1 and 2 |
| `ToyotaBytes.BitPlace` | board/safety_declarations.h:6-6 | bit 8 i + k of a frame is bit k of byte i |
| `ToyotaBytes.SignalBytes` | board/safety/safety_toyota.h:85-120 | which bit of which byte cruise, gas, brake, angle initialisation, cancel and the second request are |
| `ToyotaFrames.ProcessedExactly` | board/safety/safety_toyota.h:28-51 | every frame is processed, except 0x260 and 0x1D2 of eight bytes on bus 0 whose last byte is not the sum of the others, the address bytes and 8, modulo 256, or, with angle control, a 0x260 whose angle is not initialised |
| `ToyotaFrames.WrongSumEndsControls` | board/safety.h:172-221 | such a frame with a wrong sum leaves no controls |
| `ToyotaFrames.VehicleAfterFrame` | board/safety/safety_toyota.h:53-126 | gas, brake, cruise, motion, relay malfunction and controls after a processed frame on bus 0, each in terms of its bytes |
| `ToyotaFrames.OtherFrames` | board/safety.h:207-221 | frames on other buses change nothing, and frames that fail their checks only end controls |
| `ToyotaFrames.EngagesOnBytes` | board/safety/safety_toyota.h:89-98 | controls appear if and only if a 0x1D2 on bus 0 with a right sum takes the cruise bit up, the gas does not go down with it (unless that is allowed), and the brake does not hold a moving car |
| `ToyotaFrames.ListedMessages` | board/safety/safety_toyota.h:6-14 | which addresses, buses and lengths may be sent, with and without stock longitudinal control |
| `ToyotaFrames.SentExactly` | board/safety/safety_toyota.h:128-282 | a message is sent if and only if there is no relay malfunction, it is listed, and its bytes meet the condition for its address: acceleration, torque, angle, collision and diagnostics |
| `SafetyState.SignedValue` | board/safety.h:452-459 | for every width, the result is the one number in the signed range that is congruent to the raw value |
| `SafetyLayer.Panda.constructor` | board/safety.h:69-112 | the globals at power-on |
| `SafetyLayer.Panda.PcmCruiseCheck` | board/safety.h:737-746 | controls follow the edges of the stock cruise control |
| `SafetyLayer.Panda.GenericRxChecks` | board/safety.h:320-346 | the in-place checks are the composition of gas, brake, regen and relay steps |
| `SafetyLayer.Panda.GetAddrCheckIndex` | board/safety.h:125-154 | both loops find the specified entry and change only its seen flag and index |
| `SafetyLayer.Panda.RxMsgSafetyCheck` | board/safety.h:172-205 | validity and entry status after checksum, counter and quality checks; an invalid frame ends the controls |
| `SafetyLayer.Panda.SafetyRxHook` | board/safety.h:207-221 | one received frame is one receive step, including the mismatch reset on a rising edge of controls; both torque windows take a sample with a valid torque frame and stay as they are otherwise |
| `SafetyLayer.Panda.ToyotaRxHook` | board/safety/safety_toyota.h:53-126 | the vehicle state after a frame; 0x260 on bus 0 adds to both torque windows and widens the motor extremes by one, every other frame leaves the windows alone |
| `SafetyLayer.WindowsRun` | board/safety/safety_toyota.h:59-76 | over any run of frames since the mode was set, the motor and driver samples are those of the valid torque frames, and the extremes are the true ones of the last six, one wider for the motor |
| `SafetyLayer.Panda.WheelSpeeds` | board/safety/safety_toyota.h:101-109 | the accumulated speed is non-zero exactly when the four wheel speeds do not cancel out |
| `SafetyLayer.Panda.IsMsgAllowed` | board/safety.h:223-236 | the search accepts exactly the listed combinations of address, bus and length |
| `SafetyLayer.Panda.SafetyTxHook` | board/safety.h:238-246 | the transmit decision, and the torque state as the only thing it changes |
| `SafetyLayer.Panda.ToyotaTxHook` | board/safety/safety_toyota.h:128-282 | the step-by-step clearing of tx equals the conjunction of the per-message rules, with the torque check run on the current samples |
| `SafetyLayer.Panda.AccelViolation` | board/safety/safety_toyota.h:174-195 | the violation flags of 0x343 equal the negated rule |
| `SafetyLayer.Panda.LtaCheck` | board/safety/safety_toyota.h:207-252 | the accumulated refusals of 0x191 equal the rule |
| `SafetyLayer.Panda.SetSafetyHooks` | board/safety.h:361-449 | registered modes install hooks, tables and unseen entries over a cleared state; for others mode, parameter and hooks stay, with empty tables and a cleared state; torque state and windows are reset, heartbeat and bus setup are not touched |
| `SafetyLayer.Panda.SetSafetyMode` | board/main.c:63-118 | an unregistered mode falls back to SILENT, which always succeeds; modes that drive the bus restart the heartbeat count; the relay is switched in and the controllers only listen as the mode demands |
| `SafetyLayer.Panda.TickHandler1Hz` | board/main.c:203-288 | one 1 Hz tick is one tick step: heartbeat, mismatches, silence, mode age and late messages, in that order |
| `SafetyLayer.Panda.CountUnusedInPlace` | board/main.c:225-233 | the mismatch count and the end of unused controls |
| `SafetyLayer.Panda.HeartbeatMissing` | board/main.c:247-257 | losing the heartbeat records it, clears the engaged flag and silences the device |
| `SafetyLayer.Panda.SafetyTick` | board/safety.h:288-313 | the loop marks every late entry; controls survive only if none is late or invalid |
| `SafetyLayer.Panda.HeartbeatReceived` | board/main_comms.h:342-350 | a heartbeat restarts the count and carries the engaged flag |
| `SafetyLayer.Panda.HeartbeatChecksOff` | board/main_comms.h:359-364 | heartbeat checks cannot be switched off in a car mode |
| `SafetyLayer.Panda.SetAlternativeExperience` | board/main_comms.h:245-251 | the whole alternative experience parameter is stored, but not in a car mode |
| `SafetySteps.StepKeepsConsistent` | board/safety.h:361-449 | every event keeps the state well formed: status fits the tables, hooks fit the mode, no controls without hooks |
| `SafetyRuns.ToyotaReachable` | board/safety/safety_toyota.h:53-126 | in every reachable Toyota state controls imply an engaged cruise control and no brake on a moving car, and gas and brake flags equal their previous values |
| `SafetyRuns.OnlyCruiseEdgesEngage` | board/safety.h:737-746 | whatever happens, controls appear only with a valid 0x1D2 frame on bus 0 taking cruise from not engaged to engaged |
| `SafetyRuns.EngagesExactly` | board/safety/safety_toyota.h:89-98 | from a reachable state without controls, an event gives controls if and only if it is such an edge, the gas does not go down with it (unless that is allowed), and the brake does not hold a moving car |
| `SafetyRuns.ControlsNeedEdge` | board/safety.h:737-746 | a run that starts without controls and ends with them contains such an edge, with controls at every point since |
| `SafetyRuns.BrakeEdgeEnds` | board/safety.h:330-334 | an event in which the brake goes down leaves no controls |
| `SafetyRuns.AfterBrake` | board/safety.h:330-334 | after that, controls come back only with a later cruise edge |
| `SafetyRuns.AccelCommand` | board/safety/safety_toyota.h:173-195 | a 0x343 command is sent if and only if there is no relay malfunction, its length is 8, and bytes 0 and 1 are zero (with stock longitudinal: a cancel request) or controls are allowed, gas released and the signed value of the bytes within -3500 to 2000 |
| `SafetyRuns.AcceptedAccel` | board/safety/safety_toyota.h:173-195 | after any run, an accepted command with bytes 0 and 1 not both zero has controls, engaged cruise, released gas, no brake while moving, no relay malfunction and a signed value of these bytes in range |
| `SafetyRuns.AcceptedTorqueCommand` | board/safety/safety_toyota.h:254-269 | after any run, an accepted torque with bytes 1 and 2 not both zero has controls, engaged cruise, no brake while moving, torque steering, no relay malfunction, length 5 and magnitude at most 1500 |
| `SafetyRuns.ToyotaTorqueBudget` | board/safety/safety_toyota.h:129-143 | with the Toyota limits, at most 450 per started 250001 microseconds since the last reset, and 15 per frame up to 1500 |
| `SafetyRuns.ToyotaBudgetAfterModeChange` | board/safety/safety_toyota.h:129-143 | with the Toyota limits, at most 450 * (2 + t / 250001) when t microseconds have passed since the mode change or the last reset after it |
| `SafetyRuns.QuietRun` | board/main.c:203-272 | in any car mode without heartbeats the counter keeps up with the ticks, until the device is silent |
| `SafetyRuns.FiveTicksSilence` | board/main.c:235-257 | five such ticks end in SILENT, and every transmit is refused through any later run, harness changes included, until a mode is set |
| `SafetyRuns.SilentRun` | board/safety.h:238-246 | nothing but setting a mode leaves SILENT, harness changes included; nothing is sent in it and the controllers only listen |
| `SafetyRuns.MismatchReachable` | board/main.c:225-233 | from power-on of a release build the mismatch count never exceeds 3, nor 2 with controls |
| `SafetyRuns.UnusedControlsExpire` | board/main.c:225-233 | over any run with controls allowed at every point, in which no tick meets a state that the host marks as engaged, the mismatch count grows by one a tick and stays below 3 |
| `TorqueRuns.TimerOnly` | board/safety.h:600-683 | the torque check depends on real time only through the 32-bit timer |
| `TorqueRuns.ChecksTorqueExactly` | board/safety/safety_toyota.h:254-258 | the torque check runs, and its state moves, for 0x2E4 on bus 0 without angle control alone |
| `TorqueRuns.ToyotaTorqueExactly` | board/safety/safety_toyota.h:129-143 | with controls a torque is let through if and only if it is within 1500, 15 of the last one, 450 of the window and, unless it comes down by 25, 350 of the motor, and the request bit is set, or cut for one frame after 18 set ones and 0.17 seconds |
| `TorqueRuns.BudgetedRun` | board/safety.h:619-627 | along any run of received and sent frames, ticks, mode changes and requests from power-on, the window torque of the Toyota mode is within 450 per window move since the torque state was last cleared |
| `TorqueRuns.AcceptedTorqueInRun` | board/safety/safety_toyota.h:254-269 | in any such run, every accepted non-zero torque, read from bytes 1 and 2, is at most 1500 and at most 450 * (2 + t / 250001), t microseconds after the last mode change, silence or reset; controls are allowed, cruise engaged, and the brake does not hold a moving car |
| `TorqueRuns.AcceptedTorqueFollowsMotor` | board/safety.h:486-499 | in any such run, an accepted torque is at most 15 beyond the last command and, unless it came down by 25, at most 350 beyond the largest of the last six motor torques (read from bytes 5 and 6), and 1 for rounding; the same below |
| `MessageRuns.TickKeepsControls` | board/main.c:225-262 | in a reachable Toyota state, controls survive a tick if and only if the heartbeat is not lost, the host uses them or has not left them unused for three ticks, and each of the four monitored messages came within a second and was valid |
| `MessageRuns.LaggingExactly` | board/safety.h:288-313 | any monitored message is late if and only if more than a second and more than ten of its periods of real time have passed since it came, up to whole turns of the timer |
| `MessageRuns.RemembersAlong` | board/safety.h:172-205 | along any mixed run from power-on, each Toyota entry holds the time of the last frame it took since the mode was set, and is valid if and only if that frame had a right sum and an initialised angle |
| `MessageRuns.ControlsNeedFreshMessages` | board/safety.h:288-313 | if controls survive a tick of such a run, every monitored message came within the last second of real time, up to whole turns of the timer, and the last one was sound |
| `HeartbeatRuns.KnownModes` | board/safety.h:361-388 | which mode numbers a release build and a debug build know |
| `HeartbeatRuns.PowerOnState` | board/safety.h:69-112 | power-on: silent and listening, no controls, nothing configured or remembered |
| `HeartbeatRuns.ModeSetExactly` | board/safety.h:361-449 | the whole state after a mode was set, an unknown mode ending in silence: nothing of the vehicle is remembered, no message counts as seen, relay and listening follow the mode |
| `HeartbeatRuns.ToyotaParameter` | board/safety/safety_toyota.h:292-304 | the parameter of the Toyota mode is its torque factor plus 256, 512 and 1024 for its three flags |
| `HeartbeatRuns.TickOutcome` | board/main.c:203-288 | a tick that loses the heartbeat ends in silence; every other one leaves mode, hooks and bus alone and counts the age of the mode |
| `HeartbeatRuns.BeatIsHistory` | board/main.c:203-288 | at every point of a run the heartbeat state is a statement about the past: ticks since the last heartbeat or driving mode, what the last heartbeat said, whether it was lost, whether the check is off, and ticks in a row with unused controls |
| `CanPacket.WireOfFromWire` | board/can_declarations.h:15-25 | copying wire bytes into a zeroed structure and back gives the same bytes |
| `CanPacket.FromWireOfWire` | board/can_declarations.h:15-25 | copying a packet out and in again gives the packet, when its unused data is zero |
| `CanPacket.ParseContinues` | board/can_comms.h:59-105 | parsing continues from the unfinished bytes as if the stream had never been cut |
| `CanPacket.ParseWireAll` | board/can_comms.h:88-102 | parsing the serialisation of packets gives those packets and no rest |
| `CanPacket.CalculateChecksum` | board/drivers/can_common.h:199-205 | the loop computes the exclusive or of all bytes |
| `CanPacket.SetChecksumChecks` | board/drivers/can_common.h:207-214 | a packet whose checksum was set passes the check |
| `CanRing.Ring.Pop` | board/drivers/can_common.h:45-61 | takes the oldest packet; fails exactly on an empty queue |
| `CanRing.Ring.Push` | board/drivers/can_common.h:63-97 | appends the packet; fails exactly when only the free slot is left |
| `CanRing.Ring.SlotsEmpty` | board/drivers/can_common.h:99-111 | the free slots, for both orders of the pointers |
| `CanRing.Ring.Clear` | board/drivers/can_common.h:113-117 | empties the queue |
| `CanComms.Comms.CanRead` | board/can_comms.h:23-54 | as many bytes as asked for or pending, whichever is less; what was pending is the returned bytes followed by what is still pending |
| `CanComms.Comms.Receive` | board/drivers/can_common.h:63-97 | an accepted packet is appended to what the host will read |
| `CanComms.Comms.CanWrite` | board/can_comms.h:59-105 | for every chunk size the packets sent stay those of one parse of all bytes received, and the overflow buffer the unparsed bytes with the number still missing |
| `CanComms.Comms.TakePacket` | board/can_comms.h:88-102 | one loop iteration sends one packet or stores the unfinished one, and always advances |
| `CanComms.Comms.Assemble` | board/can_comms.h:62-86 | completes or extends the stored packet |
| `CanComms.Comms.CanSend` | board/drivers/can_common.h:216-232 | an allowed packet is queued on its bus, lost and counted when the queue is full, or dropped when there is no such bus; a refused one is counted and returned to the host marked rejected, with a new checksum, or counted as lost; per bus, what was taken and what is queued stay the queued packets in order |
| `CanComms.Comms.Transmit` | board/drivers/can_common.h:216-223 | the allowed part: queue, then let the controller take |
| `CanComms.HandedOver` | board/drivers/can_common.h:216-232 | what becomes of one packet: refused and returned, ignored, lost when 415 wait, or queued; a free mailbox takes the oldest, whose echo goes to the host if its checksum is right; all other queues stay |
| `CanComms.AllAccounted` | board/drivers/can_common.h:216-232 | every packet handed over is counted once: queued on one bus, lost, ignored or refused |
| `CanComms.QueuedOnBus` | board/drivers/can_common.h:216-223 | the packets of a bus are exactly those queued for it |
| `CanComms.Comms.ProcessCan` | board/drivers/fdcan.h:80-137 | with a free mailbox the oldest packet of the bus is taken; if its checksum is right, a copy marked as returned, with a right checksum, goes to the host or is counted as lost |
| `CanComms.Echo` | board/drivers/fdcan.h:112-126 | the echo is the frame that was sent, address, length code and data, on the bus it went to, marked as returned, with a right checksum |
| `CanComms.Bounced` | board/drivers/can_common.h:224-230 | a refused packet comes back as the same frame on the same bus, marked as rejected, with a right checksum |
| `CanComms.Comms.Reset` | board/can_comms.h:107-112 | partial packets are dropped, queued ones kept |
| `PandaPacking.LenToDlc` | python/__init__.py:41-41 | the length code is the one whose length is the data length |
| `PandaPacking.PackMsgIsWire` | python/__init__.py:36-51 | the host packs exactly the bytes of the firmware structure, with a checksum the firmware accepts |
| `PandaPacking.PackCanBuffer` | python/__init__.py:34-55 | for any messages: packed if and only if no message raises an exception, and then the chunks concatenate to the serialised list, every one but the last has 257 to 326 bytes, and the last at most 256; otherwise the exception of the first message that does |
| `PandaPacking.FeedIsParse` | board/can_comms.h:59-105 | feeding chunk by chunk equals one parse of the concatenation |
| `PandaPacking.PackThenStream` | python/__init__.py:34-55 | packing and then streaming in any chunking yields the same messages, with valid checksums and nothing left over |
| `PandaPacking.UnpackCanBuffer` | python/__init__.py:57-86 | the loop returns the specified messages and remainder, or fails on a bad checksum |
| `PandaPacking.UnpackContinues` | python/__init__.py:75-77 | unpacking in two pieces with the remainder carried over is unpacking the whole |
| `PandaPacking.UnpackWireAll` | python/__init__.py:57-86 | the host reads back exactly the packets the firmware serialised, flags folded into the bus number |
| `PandaPacking.UnpackUndoesPack` | python/__init__.py:34-86 | unpacking the packed list gives the list back |
| `PandaPacking.RoundTripExactly` | python/__init__.py:34-86 | for every list that packs, unpacking gives it back if and only if every address is below 2^29 and every bus below 8 |
| `PandaPacking.HostReadsAnswers` | python/__init__.py:57-86 | of a packet that went out the host reads address, data and bus + 128, and of a refused one address, data and bus + 192 |
| `IsoTp.OffsetValue` | python/uds.py:531-533 | consecutive frame j + 1 starts at max_len - 2 + j * (max_len - 1) |
| `IsoTp.IsoTpMessage.Send` | python/uds.py:414-445 | for every payload: single frame, first frame with the length word as packed, or the packing error from 2^16 bytes on; a receiver that has nothing, and the payload to send from its start |
| `IsoTp.LongPayloads` | python/uds.py:432-439 | a first frame announces type and length of its payload right if and only if the payload has at most 4095 bytes; from 2^13 on the type is wrong too |
| `IsoTp.IsoTpMessage.IsotpRxNext` | python/uds.py:471-552 | one received frame, empty ones included, has the specified reaction: state, frames sent, and the failing assertion or index error if any |
| `IsoTp.IsoTpMessage.ConsecutiveFrames` | python/uds.py:537-541 | the loop emits the frames of the block with sequence numbers modulo 16 and pads the last |
| `IsoTpTransfer.StepKeeps` | python/uds.py:471-552 | any delivery keeps the receiver at an exact prefix with the right frames in flight, fails no assertion and makes progress |
| `IsoTpTransfer.FlowStep` | python/uds.py:531-545 | blocks of size 0 or 1 never reach beyond the payload, and tx_done is set exactly with the last frame |
| `IsoTpTransfer.ConsecutiveStep` | python/uds.py:504-517 | an in-order consecutive frame extends the prefix, and rx_done is set exactly at completion |
| `IsoTpTransfer.QuietMeansDone` | python/uds.py:460-461 | with nothing in flight both sides are done and the payload arrived |
| `IsoTpTransfer.TransferCompletes` | python/uds.py:408-445 | every payload of 0 to 4095 bytes arrives unchanged under every schedule of deliveries, within a bounded number of them (section 9.6 of ISO 15765-2:2016) |
| `IsoTpTransfer.CarriedIsPrefix` | python/uds.py:537-541 | the data of the first j consecutive frames after a first frame is the payload up to there, padded with zeros past its end |
| `IsoTpTransfer.BlocksCarryPayload` | python/uds.py:519-545 | for every sequence of flow control frames (waits and clear-to-send with any block sizes) fed to a sender after a first frame: it emits the consecutive frames in order without gap, is done exactly when they reach the end, and then their data starts with the whole payload |
| `IsoTpTransfer.SurplusFrames` | python/uds.py:533-545 | a block of c frames emits exactly c; some carry no data if and only if the payload ends before the last one starts |
| `IsoTpTransfer.SurplusFrameRejected` | python/uds.py:504-507 | eight bytes and a block size of two: a fresh receiver that is sent the first frame and both frames of the block has the message after the first of them and fails on the second |
| `IsoTpFaults.WrongNumberRefused` | python/uds.py:504-509 | a consecutive frame with a wrong number is refused and adds nothing |
| `IsoTpFaults.OutOfPlaceRefused` | python/uds.py:476-507 | no new message replaces one in progress, and no consecutive frame extends a finished one |
| `IsoTpFaults.FirstFrameTaken` | python/uds.py:487-502 | a first frame is taken if and only if it has full length and announces more than one frame holds; it sets length and data and is answered by one flow control frame |
| `IsoTpFaults.SingleFrameTaken` | python/uds.py:476-485 | a single frame is taken if and only if its length fits, and gives that many bytes |
| `IsoTpFaults.FlowOutcomes` | python/uds.py:519-549 | a wait frame sends nothing and changes nothing; other flow control frames than clear-to-send, and any after the end, are refused |
| `IsoTpFaults.UnknownFrames` | python/uds.py:471-552 | empty frames and frames of an unknown type are refused and change nothing |
| `IsoTpFaults.NextNumber` | python/uds.py:504-517 | a receiver with k frames takes a consecutive frame if and only if its number is k + 1 modulo 16, and fails with unchanged data otherwise |
| `IsoTpFaults.FaultsDetected` | python/uds.py:504-517 | over any sequence of consecutive frames less than 16 places off: the receiver fails if and only if one is not where it belongs, holds a prefix of the payload throughout, and is done only with all of it |
| `IsoTpFaults.FirstFrameStarts` | python/uds.py:487-502 | a first frame puts every idle receiver at the start of such a sequence |
| `IsoTpFaults.SixteenLostUnnoticed` | python/uds.py:506-509 | the seventeenth consecutive frame is taken for the first |
| `Spi.LastByteChecks` | board/drivers/spi.h:78-85 | a string checks if and only if its last byte is the checksum of the rest |
| `Spi.OneByteChange` | board/drivers/spi.h:78-85 | no single damaged byte passes |
| `Spi.ValidateChecksum` | board/drivers/spi.h:78-85 | the device loop decides exactly that |
| `Spi.CalcChecksum` | python/spi.py:148-152 | the host loop computes the same checksum |
| `Spi.PackHeader` | python/spi.py:171-172 | the packed header passes the device checks and carries endpoint and both lengths |
| `Spi.WireBytes` | python/spi.py:171-172 | the bytes of a header and of a response: start byte, endpoint and lengths least significant first, and the exclusive or of all and AB |
| `Spi.HeaderAnswers` | board/drivers/spi.h:95-113 | any seven bytes are answered with the version, with 79 if they start with 5A and cancel, or with 1F |
| `Spi.AnnouncedSizes` | board/drivers/spi.h:102-113 | every header with a right checksum is acknowledged, whatever it announces; the sizes the host uses fit the buffers |
| `Spi.FitsExactly` | board/drivers/spi.h:117-189 | for every handler reply, all bytes received for a header and written in response stay inside the buffers if and only if mosi is at most 2040 and, for the test endpoint and for CAN reads without data, miso is at most 2044 |
| `Spi.LongReadOverruns` | board/drivers/spi.h:129-136 | a CAN read of 65535 bytes is accepted, and with 2045 bytes pending the answer leaves the transmit buffer |
| `Spi.LongWriteOverruns` | board/drivers/spi.h:216-218 | 2041 bytes of CAN data are accepted and leave the receive buffer |
| `Spi.Device.constructor` | board/drivers/spi.h:69-76 | the machine starts waiting for a header |
| `Spi.Device.Arrive` | board/drivers/spi.h:216-218 | received data lands behind the header, which stays the validated one; it overruns exactly when more than 2040 bytes of data were announced |
| `Spi.Device.RxDone` | board/drivers/spi.h:87-207 | for every reply: overruns exactly when an accepted request is answered with more than the buffer holds; otherwise next state, response, handler record, flow control flag and error count are those specified; every recorded handler call had both checksums right; the branches for other states and for no response are unreachable |
| `Spi.Device.CallHandler` | board/drivers/spi.h:120-159 | the handler called and its arguments, for each endpoint, or none; what it writes, of any length, or an overrun |
| `Spi.HandlerOf` | board/drivers/spi.h:117-159 | the handler an intact request reaches, and with what, by its endpoint, data and room; none otherwise |
| `Spi.NoRoomNoCanData` | board/drivers/spi.h:142-149 | CAN data reach no handler while there is no room to send them |
| `Spi.DamagedReachesNone` | board/drivers/spi.h:117-120 | a request with a wrong header, length or checksum reaches no handler |
| `Spi.RecordedCallsChecked` | board/drivers/spi.h:102-120 | every recorded handler call had both checksums and the length right |
| `Spi.Device.BuildResponse` | board/drivers/spi.h:176-189 | the transmit buffer holds acknowledge, length, the payload already in place, and the checksum, unless they do not fit |
| `Spi.Device.TxDone` | board/drivers/spi.h:210-228 | DATA_RX follows only a sent header acknowledge, everything else returns to HEADER; the branch for other states is unreachable |
| `Spi.WaitForAck` | python/spi.py:154-166 | returns the first poll that starts with the acknowledge or with 1F, none only if there is none |
| `Spi.ReadResponse` | python/spi.py:190-205 | reading 65 bytes ahead, the remainder, and trimming equals decoding the bytes on the line |
| `Spi.HostRecovers` | python/spi.py:190-205 | whatever follows a response on the line, the host gets exactly its payload |
| `Spi.HostNoticesDamage` | python/spi.py:201-203 | any one damaged byte of payload or checksum is reported as a bad checksum |
| `Spi.DeviceNoticesDamage` | board/drivers/spi.h:102-120 | a request with one damaged byte in either part is refused |
| `Spi.Transfer` | python/spi.py:167-205 | a whole exchange calls exactly the one handler the request is for, once, and returns its payload, or calls none and reports the refusal, as for CAN data without room; the device waits for a header again |
| `Spi.ResultByEndpoint` | python/spi.py:167-205 | what the host gets for each endpoint: the reply, an empty payload, as many bytes as asked for, or a refusal |
| `Crc.GenCrcLookupTable8` | board/safety.h:256-270 | entry x is x after eight bit steps |
| `Crc.GenCrcLookupTable16` | board/safety.h:273-285 | entry x is x in the upper half after eight bit steps |
| `Crc.ByteStep8` | board/safety/safety_volkswagen_mqb.h:40-43 | eight message bits are one lookup of crc ^ byte |
| `Crc.ByteStep16` | board/safety/safety_hyundai_common.h:111-113 | eight message bits are one lookup of (crc >> 8) ^ byte, added to crc << 8 |
| `Crc.VolkswagenMqbComputeCrc` | board/safety/safety_volkswagen_mqb.h:32-62 | for every length, the bit-by-bit CRC-8 with polynomial 0x2F over payload and magic byte, inverted |
| `Crc.HyundaiCanfdComputeChecksum` | board/safety/safety_hyundai_common.h:105-128 | for every length, the bit-by-bit CRC-16 with polynomial 0x1021 over payload and address, masked by length |
| `Crc.ChryslerBit` | board/safety/safety_chrysler.h:38-57 | one turn of the branchy code is one bit step with polynomial 0x1D |
| `Crc.ChryslerComputeChecksum` | board/safety/safety_chrysler.h:29-60 | for every length, the complemented bit-by-bit CRC-8 with polynomial 0x1D started at FF |
| `Crc.OneByteChange8` | board/safety/safety_chrysler.h:29-60 | with an odd polynomial, changing one byte of any message changes its CRC-8 |
| `Crc.OneByteChange16` | board/safety/safety_hyundai_common.h:105-128 | the same for CRC-16 |
| `Crc.ChryslerDetects` | board/safety/safety_chrysler.h:29-60 | any change of one covered data byte changes the Chrysler checksum |
| `Crc.HyundaiDetects` | board/safety/safety_hyundai_common.h:105-128 | any change of one covered data byte changes the Hyundai CAN FD checksum |
| `Crc.VolkswagenDetects` | board/safety/safety_volkswagen_mqb.h:32-62 | any change of one covered data byte that keeps the counter changes the MQB checksum |
| `CrcExample.CheckSaeJ1850` | board/safety/safety_chrysler.h:29-60 | the digits 1 to 9 give the published check value 4B of CRC-8/SAE-J1850 |
| `CrcExample.CheckAutosar` | board/safety/safety_volkswagen_mqb.h:32-62 | the same digits give the check value DF of CRC-8/AUTOSAR |
| `CrcExample.CheckXmodem` | board/safety/safety_hyundai_common.h:105-128 | the same digits give the check value 31C3 of CRC-16/XMODEM |
| `CrcFrames.ChryslerResidue` | board/safety/safety_chrysler.h:29-60 | the covered bytes followed by their checksum leave the residue C4, for every frame |
| `CrcFrames.MqbResidue` | board/safety/safety_volkswagen_mqb.h:32-62 | payload, magic byte for the counter and checksum leave the residue 42, for every frame |
| `CrcFrames.MagicBytes` | board/safety/safety_volkswagen_mqb.h:46-58 | two messages have one magic byte each, three another one for every counter, all others none |
| `CrcFrames.CanfdResidue` | board/safety/safety_hyundai_common.h:105-128 | payload, low and high address byte and the checksum, freed of the constant for its length, leave nothing, for every frame |

## Left out

- Angle steering and everything else in floating point (interpolation, vehicle speed samples): the verdict of the angle check is a parameter; whether the car moves is the exact integer sum.
- Hooks of the car modes other than Toyota, and the forward hooks: other modes act arbitrarily where they appear.
- Hardware: registers, clocks, DMA programming, GPIO, power saving, siren, fan, LEDs, USB descriptors and the CAN controllers.
- The packet layout of the F4 boards with 8 data bytes, and their 1024-byte SPI buffer: the layout with 64 bytes and the 2048-byte buffer are modelled.
- The content of the SPI version packet: its bytes are a parameter.
- Timeouts, retries, `expect_disconnect`, locks and logging of the Python handles; the kernel SPI driver; UDS services and `python/isotp.py`.
- The number theory of RSA key pairs: that the exponents undo each other is a hypothesis of `RsaVerify.SignedImagesVerify`. The unused 2048-bit padding table is not modelled.
- The overlapping `memcpy` in `comms_can_read` (board/can_comms.h:31-31) is taken to move the bytes as `memmove` would.
- Steering.SteerTorque.SteerTorqueCmdChecks: limit arithmetic is on unbounded integers; the code's `int` could overflow only for limits and samples far outside what cars send.
- Spi.Device.RxDone: what the memory behind a buffer holds after an overrun is not part of this model; neither is the 16-bit transfer counter of the DMA controller, which turns 65536 announced bytes into none.
- IsoTp.IsoTpMessage.Send: the separation time only delays frames and is not part of this model.
- Exponentiation.FullWidthModulus: for a narrower modulus and an input above it, whether the result is reduced depends on the chain; no condition on key and input alone is given for that case.
- CanComms.Comms.CanSend: the transmit queues are kept by their contents, not as ring buffers; each takes one packet less than the 416 slots of the code, as the ring buffer does.
- CanComms.Comms.ProcessCan: the registers of the controller, the mapping of bus numbers to controllers, and the counters of sent packets and checksum errors are not part of this model.
- SafetyLayer.Panda.ToyotaTxHook: the verdict of the LTA angle check is a parameter and the angle state (`desired_angle_last`) is not kept, because that check interpolates in floating point.
- SafetyLayer.Panda.LtaCheck: the verdict of the angle check is a parameter, for the same reason.
- SafetyLayer.Panda.SetSafetyMode: the relay and the listen-only mask are kept as they are set; the OBD multiplexer and the counters of blocked and invalid frames that a mode change clears are not.
- SafetyLayer.Panda.ToyotaRxHook: the angle samples of 0x260 and the speed samples of 0xaa are not kept, because only the angle check reads them.
- Globals that only other modes use (`acc_main_on`, `cruise_button_prev`).
- The low-power and ignition part of the 8 Hz tick; a harness change is an event of its own.
- Message counters are counted for any mode, but Toyota has none, so no Toyota theorem mentions them.
