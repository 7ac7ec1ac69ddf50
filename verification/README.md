# A verified model of the GNSS correction server

The server reads a byte stream of NovAtel OEM4 range messages, keeps the observations of the current
epoch, re-encodes them as RTCM 3 MSM4 messages for GPS and BeiDou together with a type 1005 station
message, and publishes the newest bundle of the three frames as Base64. This project models that path
byte by byte and bit by bit, from the received stream to the published text, and the self-contained
algorithms of the common library beside it, and proves what they keep, invert, bound or refine.

`dafny verify dfyconfig.toml` checks everything.

## How it is laid out

* Bits and checks. `BitFields` and `BitWriter` view a buffer as its bit sequence: a write replaces a
  stretch of it, a read evaluates one. `CrcDivision` is long division over GF(2) by any generator; `Crc24q`
  holds the table of the source and proves every entry and the byte loop against division by 0x1864CFB.
  `Crc32` is the reflected CRC, kept as 32 bits, least significant first, and proved against division by
  0x104C11DB7.
* Receiver side. `Oem4Framing` (the byte-at-a-time framing, refined against a scan of the whole
  stream), `RangeDecoder` (CRC check, range records), `Satellites`, `Observations` (the observation set),
  `ObservationFold` (what a message does to it), `RangeBytes` (a message laid out byte by byte and what is
  filed of the values written in it).
* Encoder side. `Masks`, `MsmIndex` (ranked masks), `Quantisation` (two-stage quantisation),
  `MsmSignals` and `SignalProperties` (residuals, phase offsets and lock times carried between epochs),
  `MsmEncode` (the message, field by field), `MsmReadBack` (what a receiver reads back), `MsmGrid` (how
  far the masks carry), `Rtcm3` (framing, and a receiver that splits a stream into frames),
  `RtcmMessages` (gen_rtcm3 and encode_type1005), `EpochSets` (the split by system, sizes).
* The whole path. `AssistPipeline` is a fold over received messages; `ReceivedFrames` is what the frames
  it produces tell a receiver of satellites, ranges and phases, `ReceivedBundles` what the headers, marks and
  the three frames of a bundle do; `AssistData` holds the class that implements the fold in place and the
  slot it fills; `Publisher` sends the slot.
* Library algorithms. `Base64`, `Md5`, `IniFile`, `RollingLog`, `IoBuffer`, `TimerQueue`, `TimeScales`.

Where a theorem says what a receiver gets or what a message means, its statement names positions, units and
constants in numbers, so that it does not rest on the definitions the encoder or decoder uses.

Objects that the source updates in place are classes here, with methods that follow its branches and
loops; each is tied by its contract to a function, and the theorems are about those functions. Doubles
are reals and the constants 2^-n exact; times are integer milliseconds, except in `TimeScales`, which
keeps whole seconds and a fraction. Uninitialised stack arrays are parameters of arbitrary content.

## Where the code and its promises part

* The cell mask is cut at 64 bits although a grid may have up to 2048 cells. Fewer than 64 observed
  cells do not suffice: 33 BeiDou satellites on two signals are a counterexample
  (`MsmGrid.MasksAmbiguous`). The masks read back, whatever the signals measure, exactly when the grid
  has at most 64 cells (`MsmGrid.ReadsBackIffSmallGrid`). What the receiver decoder admits is always
  such a grid (`EpochSets.OneColumn`).
* A 64th cell is counted but its fields are never filled in, so the message shows what the stack held;
  it does not exactly when there are fewer than 64 cells (`MsmReadBack.StackShowsFrom64`). All 37 BeiDou
  satellites on 1I and 1Q are 74 cells (`MsmGrid.CrowdedCells`).
* Two codes of a satellite may have one signal identifier: GPS 1P and 1Y do. Such signals share a cell, and
  a receiver gets one signal mixed from both, say the range of one with the strength of the other
  (`RtcmMessages.MixedSignals`). Whatever the signals measure, every one is received with its own fields
  exactly when no two share a cell (`RtcmMessages.OwnIffPairsDiffer`); what a shared cell holds is
  `SignalProperties.EpochFields`.
* The 6-bit signal strength wraps from 63.5 dBHz on (`MsmReadBack.CnrFits`).
* A pseudorange that falls exactly on the 2^-10 ms grid is sent as invalid
  (`Quantisation.SingleSignalInvalid`).
* A full observation set ignores even satellites that are in it, so the last record of a satellite does
  not always win; whatever the records measure, it does exactly when no usable record comes after the one
  that fills the set (`ObservationFold.LastRecordWinsByOrder`). A message of 32 GPS and 32 BeiDou satellites
  and the first of them again is one that loses it (`ObservationFold.LastRecordLost`).
* gpst2utc followed by utc2gpst moves the GPS seconds that a leap second inserts
  (`TimeScales.GpstRoundTrip`).
* A store with, say, a key that contains `=` does not survive save and load; the exact condition is
  `IniFile.WellFormed` (`IniFile.SurvivesIffWellFormed`).
* The published text counts the terminating NUL, which the repository's own Base64 decoder would take for
  a foreign letter unless padding comes first (`Base64.PublishedDecodes`). No code in the repository
  decodes the published text; the subscriber of `Publisher.Subscriber`, which uses that decoder on the
  text as sent, is hypothetical.
* The comment on gen_rtcm3 says that sync announces another message; the code sets it on the BeiDou
  message, the last of the three, and clears it on the GPS message before it. The model follows the code.

## Model

| member | source | states |
|---|---|---|
| BitFields.SetBitU | AgnssServer/AssistData.c:468-476 | the in-place loop replaces exactly the addressed stretch of the bit sequence by the low bits of the data, and leaves the buffer alone for a length outside 1..32 |
| BitFields.GetBitU | AgnssServer/AssistData.c:486-492 | the 32-bit accumulator ends at the unsigned value of the addressed stretch |
| BitFields.GetBits | AgnssServer/AssistData.c:494-499 | the two's complement value of the addressed stretch, for every length up to 32 |
| BitFields.SetBits | AgnssServer/AssistData.c:1987-1991 | an explicit sign bit and the low bits below it replace the addressed stretch |
| BitFields.UIntField | AgnssServer/AssistData.c:468-492 | reading a written unsigned field gives the data modulo 2^len |
| BitFields.FieldUInt | AgnssServer/AssistData.c:468-492 | writing a read field restores the same bits |
| BitFields.SIntSField | AgnssServer/AssistData.c:1987-1991 | a signed field reads back as the value written if and only if the value fits in it |
| BitFields.ByteValue | AgnssServer/AssistData.c:468-492 | the bits of a byte are its binary digits, the most significant first |
| BitWriter.ReadFieldU | AgnssServer/AssistData.c:2035-2073 | the k-th of a run of equal-width unsigned fields reads back as its value modulo 2^w |
| BitWriter.ReadFieldS | AgnssServer/AssistData.c:1994-2031 | the same for runs of signed fields |
| CrcDivision.ParityDivides | AgnssServer/AssistData.c:2118-2133 | a bit string followed by its parity is divisible by the generator, whichever it is |
| Crc24q.GeneratorValue | AgnssServer/AssistData.c:193-226 | the generator of CRC-24Q is 0x1864CFB |
| Crc24q.TableIsParity | AgnssServer/AssistData.c:193-226 | every one of the 256 table entries is the remainder of its index shifted up by 24 places |
| Crc24q.Crc24 | AgnssServer/AssistData.c:2126-2133 | the table-driven loop computes the register of the bytes |
| Crc24q.RegisterIsParity | AgnssServer/AssistData.c:2126-2133 | that register is the remainder of bitwise long division by 0x1864CFB, for every message |
| Crc24q.ResidueIsZero | AgnssServer/AssistData.c:2168-2170 | a message followed by its own parity leaves the register at zero |
| Crc32.Crc32Of | AgnssServer/AssistData.c:701-713 | the two nested loops compute the register of the bytes |
| Crc32.RegisterIsParity | AgnssServer/AssistData.c:701-713 | that register is the remainder of bitwise long division of the message, each byte least significant bit first, by the generator of CRC-32, for every message; its first bit is the highest power |
| Crc32.GeneratorValue | AgnssServer/AssistData.c:42 | that generator is 0x104C11DB7, the reflection of 0xEDB88320 with its leading one |
| Crc32.LeastBitFirst | AgnssServer/AssistData.c:708-710 | the first of a byte's bits here is the one worth 1, and so on |
| Crc32.StepXor | AgnssServer/AssistData.c:708-710 | one step is linear over exclusive or |
| Crc32.StepInjective | AgnssServer/AssistData.c:708-710 | one step is invertible |
| Crc32.FeedTogether | AgnssServer/AssistData.c:701-713 | up to four bytes can be fed into the register at once |
| Crc32.IntactIffZeroResidue | AgnssServer/AssistData.c:1541-1548 | the register agrees with the trailing little-endian CRC if and only if it ends at zero over both |
| Crc32.BurstChangesCrc | AgnssServer/AssistData.c:701-713 | changing up to four consecutive bytes always changes the CRC |
| Oem4Framing.Decoder.Sync | AgnssServer/AssistData.c:502-506 | the window shifts by one and is tested for AA 44 12 |
| Oem4Framing.Decoder.Input | AgnssServer/AssistData.c:1571-1589 | for every stream, the messages handed over so far are those of the scan of all bytes received so far, which `AllRecovered` and `FoundLaidOut` describe in bytes; nbyte stays below the buffer's size |
| Oem4Framing.NextSyncIsFirst | AgnssServer/AssistData.c:1573-1577 | the scan looks for the first sync |
| Oem4Framing.ScanResumes | AgnssServer/AssistData.c:1571-1589 | scanning may stop anywhere and resume from what is not yet consumed, so the cutting of the stream into calls does not matter |
| Oem4Framing.AllRecovered | AgnssServer/AssistData.c:1571-1589 | messages laid out in bytes (AA 44 12, a header of 28, the length of the body in bytes 8 and 9, low byte first, the body, four bytes of CRC, 4096 at most) and separated by gaps without a sync are all recovered, in order and unchanged, and nothing else |
| Oem4Framing.FoundLaidOut | AgnssServer/AssistData.c:1571-1589 | whatever the stream, everything handed over is laid out so |
| RangeDecoder.PassesIffZeroResidue | AgnssServer/AssistData.c:1543-1548 | a message passes the check if and only if the register ends at zero over all of it |
| RangeDecoder.BurstRejected | AgnssServer/AssistData.c:1543-1548 | a passing message with up to four consecutive bytes changed is rejected |
| RangeDecoder.RawData.DecodeOem4 | AgnssServer/AssistData.c:1536-1569 | return code, time and memory after a whole message: bad CRC, other messages, too few records, or the fold of the records |
| RangeDecoder.RawData.DecodeRangeB | AgnssServer/AssistData.c:917-1000 | the record loop is the fold of the one-record step |
| RangeDecoder.RawData.OneRecord | AgnssServer/AssistData.c:938-998 | one record: unusable ones change nothing, others update lock time, half-cycle flag and set |
| RangeDecoder.RawData.ObsIndex | AgnssServer/AssistData.c:853-871 | the place of a satellite, a new one at the end, or -1 once 64 are held |
| RangeBytes.MessageDecodes | AgnssServer/AssistData.c:1536-1569 | a message laid out in bytes (identifier 43 at 4, format at 6, length at 8, week at 14, milliseconds at 16, record count at 28, records of 44 from 32 on, the remainder by 0x104C11DB7 behind) is found by the framing and decodes to the values written in it at the time of its week and milliseconds since 6 January 1980 |
| RangeBytes.OtherMessages | AgnssServer/AssistData.c:1543-1567 | which messages are rejected, ignored and too short, by the division of their bits, byte 6 and bytes 4 and 5 |
| RangeBytes.UseOfWritten | AgnssServer/AssistData.c:743-779 | a record counts for GPS satellite PRN or BeiDou satellite PRN - 77 when bits 16 to 18 and 21 to 25 of its status say so and its PRN is in 1..32 or 161..197, and for none otherwise |
| RangeBytes.SignalSays | AgnssServer/AssistData.c:953-990 | range, phase with its sign turned, strength in quarters, code and both flags of a usable record, by its values and bits 10, 11, 12 and 28 of its status, against the lock seen before |
| RangeBytes.MessageFiles | AgnssServer/AssistData.c:938-998 | for every satellite of the written records that counts, the set holds what its last counting record says, against what the last record of the satellite before it said |
| RangeBytes.MessageFiled | AgnssServer/AssistData.c:938-1000 | the same for all satellites at once, and what is remembered of each for the next message |
| RangeBytes.FileMessage | AgnssServer/AssistData.c:1536-1569 | decode_oem4, called on a buffer with such a message, files it |
| Observations.UseOf | AgnssServer/AssistData.c:743-779 | a satellite is only ever filed under the one code of its system |
| Observations.SetOnEveryRun | AgnssServer/AssistData.c:853-871 | after every run of range messages: at most 64 observations, of different satellites, at one time |
| ObservationFold.MessageResult | AgnssServer/AssistData.c:938-998 | every message with a usable record leaves the satellites in order of first appearance, behind those already there at its time, each with its last record and the loss-of-lock flags of that record against the one before it, over the records that count: all up to the one that fills the set |
| ObservationFold.LocksKept | AgnssServer/AssistData.c:966-974 | after any records lock time and half-cycle flag of every satellite are those of its last usable record, counted or not |
| ObservationFold.LocksOnEveryRun | AgnssServer/AssistData.c:966-974 | so they are over every run of range messages, which is what the next flags are computed against |
| ObservationFold.LastRecordWinsIff | AgnssServer/AssistData.c:857 | the last record wins for every satellite, flags and all, if and only if the records after the filling one say last what those before it said last, or the set held already |
| ObservationFold.LastRecordWinsByOrder | AgnssServer/AssistData.c:857 | for every measurement with the same satellites in the same order, it does if and only if no usable record comes after the filling one |
| ObservationFold.LastRecordLost | AgnssServer/AssistData.c:857 | a message of 65 usable records after which the set does not hold the last record of its first satellite |
| ObservationFold.OldSetDropped | AgnssServer/AssistData.c:979-981 | the first usable record at a new time empties the set |
| ObservationFold.UnusableRecordsIgnored | AgnssServer/AssistData.c:940-952 | records of other systems, signals or satellites change nothing |
| Satellites.SatelliteNumbersInvert | AgnssServer/AssistData.c:879-899 | GPS satellites are numbered 1 to 32 and BeiDou satellites PRN - 77, other PRNs not at all; to_satid gives back 1 to 32 and 1 to 37; the comparison with 84 tells the systems apart |
| Satellites.SatIdInjective | AgnssServer/AssistData.c:1636-1641 | a system and an identifier name at most one satellite |
| Satellites.SigIdIsFirstMatch | AgnssServer/AssistData.c:1681-1708 | the signal identifier is the first place of the code's name in the system's table, 0 when there is none |
| Satellites.AdmittedSignals | AgnssServer/AssistData.c:756-774 | the two admitted codes are signal 2 of their systems, on the first frequency |
| Masks.RanksBijective | AgnssServer/AssistData.c:1730-1735 | numbering is a bijection from the flagged places onto 1..count, increasing with the place |
| Masks.NumberFlags | AgnssServer/AssistData.c:1747-1749 | the in-place loop turns flags into ranks up to a limit and leaves the flags beyond it |
| MsmIndex.GenMsmIndex | AgnssServer/AssistData.c:1712-1750 | the three arrays hold the ranks of the masks of the observed satellites, signals and row-major cells; ncell stops at 64 |
| MsmIndex.MasksCarryPairs | AgnssServer/AssistData.c:1736-1750 | the three masks together determine exactly the observed pairs |
| MsmIndex.FieldInRange | AgnssServer/AssistData.c:1747-1749 | below 64 cells every pair has a field number in 1..ncell, and the cell of that rank is its own |
| MsmIndex.SameFieldSamePair | AgnssServer/AssistData.c:1747-1749 | two signals share a field number if and only if they are the same pair |
| MsmIndex.FieldHasEntry | AgnssServer/AssistData.c:1747-1749 | every field number belongs to a pair, the one a receiver finds at its cell |
| MsmGrid.ReadsBackIffSmallGrid | AgnssServer/AssistData.c:1908-1919 | reading the masks of the epoch's message recovers the observed pairs, for all measurements of the same signals, if and only if the grid has at most 64 cells |
| MsmGrid.MasksAmbiguous | AgnssServer/AssistData.c:1917-1919 | two BeiDou observation lists of 33 cells each, with the same header and masks and different pairs |
| MsmGrid.CrowdedCells | AgnssServer/AssistData.c:1747-1749 | a list of 37 BeiDou observations that fills 74 cells |
| MsmGrid.CrowdedShowsStack | AgnssServer/AssistData.c:1747-1749 | its message differs for two contents of the uninitialised arrays |
| Quantisation.RoughFields | AgnssServer/AssistData.c:2035-2073 | the integer field is invalid if and only if the rounded range is outside (0, 255) ms; otherwise the two fields are the rounded range |
| Quantisation.RoughError | AgnssServer/AssistData.c:1794-1798 | the rough range is within half of 2^-10 ms of the measured range |
| Quantisation.FinePsrFits | AgnssServer/AssistData.c:2014-2031 | the 15-bit field never overflows, and is its invalid marker if and only if the residual is zero or above 292.7 m |
| Quantisation.RangeDecodes | AgnssServer/AssistData.c:2014-2073 | with no field invalid, the decoded range is within RANGE_MS 2^-25 of the measured one |
| Quantisation.SingleSignalInvalid | AgnssServer/AssistData.c:2014-2031 | against its own rough range a residual is invalid if and only if the range lies on the rough grid |
| Quantisation.FinePhrFits | AgnssServer/AssistData.c:1994-2011 | the 22-bit field never overflows, and is its invalid marker if and only if the residual is zero or above 1171 m |
| Quantisation.PhaseResidualDecodes | AgnssServer/AssistData.c:1994-2011 | a valid phase residual decodes to within half a step of 2^-29 ms |
| Quantisation.OffsetStep | AgnssServer/AssistData.c:1839-1846 | an update keeps the offset a whole number of cycles, changes it only on a slip or a drift above 1171 m, and leaves a residual of at most 1171 m |
| MsmSignals.GenMsmSat | AgnssServer/AssistData.c:1774-1804 | every satellite of the message gets the rough range of its first signal that has a nonzero one |
| MsmSignals.RoughIsFirst | AgnssServer/AssistData.c:1794-1800 | that is the rounded range of the first of its signals whose range does not round to zero, and zero when there is none |
| MsmSignals.FirstWavelength | AgnssServer/AssistData.c:1759-1770 | one cycle is 299792458/1575420000 m for GPS and 299792458/1561098000 m for BeiDou |
| MsmSignals.Tracker.TrackSignal | AgnssServer/AssistData.c:1835-1848 | offset, lock start, residual and lock time of one signal as functions of the state before |
| MsmSignals.Tracker.Update | AgnssServer/AssistData.c:1834-1856 | the state and the arrays after one signal |
| MsmSignals.Tracker.GenMsmSig | AgnssServer/AssistData.c:1807-1858 | the double loop, computing cells through the numbered masks, is the fold of the one-signal step over the message's entries |
| SignalProperties.TrackStepKeeps | AgnssServer/AssistData.c:1839-1846 | only the signal's own offset changes, only for the two reasons, and it stays whole cycles of its satellite |
| SignalProperties.OffsetsWholeOnEveryRun | AgnssServer/AssistData.c:1834-1850 | over every sequence of epochs, whatever is observed, every offset is a whole number of its satellite's wavelengths |
| SignalProperties.EpochKeeps | AgnssServer/AssistData.c:1834-1856 | an epoch keeps the offsets whole and leaves no fine phase outside its field |
| SignalProperties.ChangeHasCause | AgnssServer/AssistData.c:1839-1847 | over a whole epoch an offset, or a lock start once set, changes only if a signal of its own slot slips or drifts above 1171 m; slots without signals keep theirs |
| SignalProperties.EpochFields | AgnssServer/AssistData.c:1807-1858 | below 64 cells the fields of every pair after an epoch are a function of the pair's own signals at their turns, whatever else the epoch holds and whatever the arrays held |
| SignalProperties.LastMarks | AgnssServer/AssistData.c:1852-1854 | a pair's lock time, half-cycle flag and strength are those of its last signal |
| SignalProperties.LastRange | AgnssServer/AssistData.c:1849 | its range residual is that of its last signal with one, zero when none has |
| SignalProperties.LastPhase | AgnssServer/AssistData.c:1850 | its phase residual is that of its last signal with one, zero when none has |
| SignalProperties.PhaseDecodes | AgnssServer/AssistData.c:1994-2011 | a measured phase on the first frequency with valid fields decodes to the measurement less a whole number of cycles of 1575.42 MHz or 1561.098 MHz, to within half a step |
| MsmEncode.LockInterval | AgnssServer/AssistData.c:1644-1654 | every session time lies in the interval that a receiver takes its indicator to mean; the last interval is open |
| MsmEncode.MsmLockInterval | AgnssServer/AssistData.c:1931-1949 | the lock indicator n stands for a lock time from 16 2^n up to 16 2^(n+1) |
| MsmEncode.EpochOfWeek | AgnssServer/AssistData.c:1885-1892 | the epoch field is the time into the week of the system's own scale, and fits its 30 bits |
| MsmEncode.CnrValueIsRounded | AgnssServer/AssistData.c:1952-1962 | the integer form of the signal strength is the rounding of a quarter of the stored value |
| MsmEncode.EmitMask | AgnssServer/AssistData.c:1908-1919 | the loops append the mask bit by bit |
| MsmEncode.EncodeIntRrng | AgnssServer/AssistData.c:2054-2073 | appends the integer rough ranges |
| MsmEncode.EncodeModRrng | AgnssServer/AssistData.c:2035-2051 | appends the rough ranges modulo 1 ms |
| MsmEncode.EncodePsrng | AgnssServer/AssistData.c:2014-2031 | appends the fine pseudoranges |
| MsmEncode.EncodePhrng | AgnssServer/AssistData.c:1994-2011 | appends the fine phases |
| MsmEncode.EncodeLock | AgnssServer/AssistData.c:1976-1985 | appends the lock time indicators |
| MsmEncode.EncodeHalfAmb | AgnssServer/AssistData.c:1964-1973 | appends the half-cycle indicators |
| MsmEncode.EncodeCnr | AgnssServer/AssistData.c:1952-1962 | appends the signal strengths |
| MsmEncode.Rtcm.constructor | AgnssServer/AssistData.c:524-571 | the state an encoder starts from |
| MsmEncode.Rtcm.EncodeMsmHead | AgnssServer/AssistData.c:1860-1928 | header and masks written, rough ranges and signal arrays computed, all as functions of the state before |
| MsmEncode.Rtcm.EncodeMsm4 | AgnssServer/AssistData.c:2076-2100 | the buffer holds the whole message, a function of header, observations and tracked state |
| MsmReadBack.BitCount | AgnssServer/AssistData.c:1896-1919 | the message has 193 + nsat nsig + 18 nsat + 48 ncell bits if and only if nsat nsig is at most 64 |
| MsmReadBack.PairsReadBack | AgnssServer/AssistData.c:1908-1919 | a frame with a grid of at most 64 cells gives back exactly the observed pairs; MsmGrid.ReadsBackIffSmallGrid is the converse |
| MsmReadBack.FieldsReadBack | AgnssServer/AssistData.c:2076-2100 | below 64 cells the fields read at the ranks of a pair are what its signals leave: `SignalProperties.LastMarks`, `LastRange` and `LastPhase` say what that is |
| MsmReadBack.CnrFits | AgnssServer/AssistData.c:1952-1962 | the 6-bit field carries the signal strength if and only if it is below 63.5 dBHz |
| MsmReadBack.StackDoesNotShow | AgnssServer/AssistData.c:2076-2091 | below 64 cells the message does not depend on the uninitialised arrays |
| MsmReadBack.StackShows | AgnssServer/AssistData.c:1747-1749 | from 64 cells on it does |
| MsmReadBack.StackShowsFrom64 | AgnssServer/AssistData.c:1747-1749 | the message is independent of the uninitialised arrays if and only if there are fewer than 64 cells |
| MsmReadBack.EpochIgnoresStack | AgnssServer/AssistData.c:1821-1858 | below 64 cells an epoch leaves the same offsets, lock times and fields whatever the arrays held, even with two signals of one pair |
| Rtcm3.FinishFrame | AgnssServer/AssistData.c:2157-2175 | padding, length and parity turn the message into its frame; it fails if and only if the message has more than 1023 bytes |
| Rtcm3.FrameWellFormed | AgnssServer/AssistData.c:2142-2175 | every frame: 0xD3, six zero bits, the length, the message, zero padding, and a CRC-24Q of zero over all of it |
| Rtcm3.DeframeAll | AgnssServer/AssistData.c:2142-2175 | a transport-layer receiver splits any concatenation of frames into exactly those frames |
| RtcmMessages.GenRtcm3 | AgnssServer/AssistData.c:2142-2176 | it never fails, and its frame is a function of header, observations and tracked state, whatever the buffer held |
| RtcmMessages.FrameIgnoresStack | AgnssServer/AssistData.c:2142-2176 | nor does it depend on the uninitialised arrays |
| RtcmMessages.HeaderDelivered | AgnssServer/AssistData.c:1896-1906 | a receiver of the frame finds message number, station, epoch, flags, session time and eight zero bits in the header |
| RtcmMessages.RangeDelivered | AgnssServer/AssistData.c:1794-1850 | from measurement to frame, below 64 cells: unmarked range fields of a pair give, to within RANGE_MS 2^-25, the range of its last signal with a residual |
| RtcmMessages.OwnIffPairsDiffer | AgnssServer/AssistData.c:1681-1708 | for all measurements of the same signals every signal is received with its own fields, if and only if no two have one satellite and one signal identifier |
| RtcmMessages.MixedSignals | AgnssServer/AssistData.c:1689 | two signals of one GPS satellite, on 1P and 1Y, that are received as one, with the range of the first and the strength of the second |
| RtcmMessages.PhaseDelivered | AgnssServer/AssistData.c:1834-1851 | unmarked phase fields give a measured phase of the last signal with a phase residual, less the whole cycles, of 1575.42 MHz for GPS and 1561.098 MHz for BeiDou, taken off at its turn, to within half a step of 2^-29 ms; these are carried on unless a later signal has the same slot |
| RtcmMessages.Set38ReadsBack | AgnssServer/AssistData.c:2179-2185 | a 38-bit coordinate reads back rounded down, over the whole range of the field |
| RtcmMessages.EncodeType1005 | AgnssServer/AssistData.c:2196-2244 | a frame of 25 bytes that depends only on station number and position |
| RtcmMessages.StationDelivered | AgnssServer/AssistData.c:2208-2222 | a receiver of it finds message number, station, the indicator bits and the three coordinates |
| EpochSets.Split | AgnssServer/AssistData.c:2257-2272 | the loop of raw2rtcm computes the two parts and their times |
| EpochSets.SplitConserves | AgnssServer/AssistData.c:2257-2272 | the parts together hold every observation exactly once |
| EpochSets.SplitInOrder | AgnssServer/AssistData.c:2257-2272 | each part is the set read at increasing places, of its own satellites |
| EpochSets.SetEntriesDistinct | AgnssServer/AssistData.c:756-774 | the signals of a part are in different cells and tracking slots, on the first frequency |
| EpochSets.OneColumn | AgnssServer/AssistData.c:756-774 | one signal per system: nsat nsig = ncell = nsat, at most 32 for GPS and 37 for BeiDou |
| EpochSets.FrameSize | AgnssServer/AssistData.c:2076-2176 | messages of 193 + 67 nsat bits, frames of at most 296 and 337 bytes |
| AssistPipeline.AllBundlesGood | AgnssServer/AssistData.c:2302-2335 | on every run every bundle has frames of 25, at most 296 and at most 337 bytes, which a receiver splits into exactly the three |
| ReceivedFrames.FrameNamesSatellites | AgnssServer/AssistData.c:2310-2317 | the masks of a bundle's frame name exactly the satellites of the set, GPS by their numbers and BeiDou by their numbers less 83, each on signal 2 |
| ReceivedFrames.FieldsReceived | AgnssServer/AssistData.c:2310-2317 | every observation's fields arrive, and depend on that observation and its own tracked state alone |
| ReceivedFrames.FrameGivesRange | AgnssServer/AssistData.c:2014-2073 | for every observation of the set the range fields are unmarked if and only if the rounded range lies in (0, 255) ms and the range not on the rough grid, and then give it to within 299792.458 2^-25 m |
| ReceivedFrames.FrameGivesPhase | AgnssServer/AssistData.c:1994-2011 | the phase fields are unmarked if and only if the rounded range lies in (0, 255) ms and the residual is not zero, and then give the measured phase less the n cycles carried for its satellite, (L - n) 299792458/1575420000 m for GPS and (L - n) 299792458/1561098000 m for BeiDou, to within half a step of 2^-29 ms |
| ReceivedFrames.OffsetCarriedOn | AgnssServer/AssistData.c:1839-1847 | the offset taken off an observation is the one the encoder keeps for its satellite, and so is the start of its lock time |
| ReceivedFrames.OffsetStays | AgnssServer/AssistData.c:1839-1847 | an epoch changes a satellite's offset, or its lock start once set, only if its observation slips or drifts above 1171 m |
| ReceivedFrames.PhaseContinuous | AgnssServer/AssistData.c:1834-1850 | over every stretch of received messages that do not disturb a satellite, its received phases all lack the same number of cycles |
| ReceivedFrames.LockStartsAnew | AgnssServer/AssistData.c:1839-1847 | a disturbed observation, or a first one, is sent with lock indicator 0 and its lock time counts from then on |
| ReceivedFrames.LockContinuous | AgnssServer/AssistData.c:1847 | over every stretch of received messages that do not disturb a satellite, its received lock indicators are those of the whole seconds since one lock start |
| ReceivedFrames.LockSinceDisturbance | AgnssServer/AssistData.c:1839-1847 | which, after a disturbance, is the time of the disturbed observation |
| ReceivedBundles.FrameHeaderGiven | AgnssServer/AssistData.c:1885-1906 | the header of every frame: 1074 or 1124, station 0, milliseconds into the GPS week or the BeiDou week 14 s behind it, no message announced by GPS and one by BeiDou, the indicator of the seconds since the session began, zeros |
| ReceivedBundles.FrameGivesMarks | AgnssServer/AssistData.c:1852-1854 | the half-cycle bit is bit 1 of the observation's flags, and below 63.5 dBHz the strength is the rounded quarter of the stored one |
| ReceivedBundles.OffsetStartsAnew | AgnssServer/AssistData.c:1839-1842 | a disturbed signal is sent less the nearest whole cycles: at most half a cycle is left |
| ReceivedBundles.BundleIffBoth | AgnssServer/AssistData.c:2320-2337 | a set gives rise to a bundle if and only if satellites of both systems are in it |
| ReceivedBundles.AllBundlesDeliver | AgnssServer/AssistData.c:2302-2335 | every bundle of every run: a receiver finds message 1005 with the configured position in steps of 0.1 mm, then 1074, then 1124 |
| ReceivedBundles.MessageCarried | AgnssServer/AssistData.c:2302-2347 | after any messages, a range message laid out in bytes: its values are filed, both encoders move on, and it gives rise to exactly one bundle, with those three messages and the frames of the two parts, if satellites of both systems are then in the set, and to none otherwise |
| AssistPipeline.WorldOffsetsWhole | AgnssServer/AssistData.c:2302-2335 | over every run of received messages both encoders' offsets stay whole cycles |
| AssistData.EncodeSystem | AgnssServer/AssistData.c:2310-2317 | what raw2rtcm stores for a system and gen_rtcm3 encode is the frame of that part, and the encoder's next state |
| AssistData.AssistDataProcessor.OnRange | AgnssServer/AssistData.c:2304-2347 | one range message: both encoders advance; the slot takes the three frames if and only if both systems are observed |
| AssistData.AssistDataProcessor.Input | AgnssServer/AssistDataProcessor.cpp:22-26 | for every stream and every cutting: state and slot are those of the fold over the messages found in all bytes received |
| AssistData.AssistDataProcessor.GetOutput | AgnssServer/AssistDataProcessor.cpp:29-90 | the newest bundle if it has not been taken, its frames in the order station, GPS, BeiDou; taken places increase strictly, so each is taken at most once |
| AssistData.SlotNext | AgnssServer/AssistData.c:2320-2337 | a message keeps the slot's invariant: it holds the newest bundle exactly while that has not been taken |
| AssistData.SlotTaken | AgnssServer/AssistDataProcessor.cpp:84-88 | taking it keeps the invariant too |
| Publisher.HandleOutput | AgnssServer/Application.cpp:489-528 | the published text is the Base64 form of the newest bundle and a NUL, at most 881 characters |
| Publisher.Serve | AgnssServer/AssistDataProcessor.cpp:22-90 | from a new device on, for every stream cut into any pieces: the texts published after the pieces are those of the newest bundle of the stream so far, each time there is a new one |
| Publisher.LastText | AgnssServer/AssistDataProcessor.cpp:22-90 | so the last text is that of the newest bundle of the whole stream, however it is cut |
| Publisher.SubscriberDecodes | AgnssServer/Application.cpp:370-374 | a subscriber gets the three frames back if and only if the bundle's length is not a multiple of three |
| Base64.Encode | comn/src/Base64.cpp:68-96 | nothing if and only if a size guard fails; otherwise the encoding of section 4 of RFC 4648 and a NUL, despite the wrapping accumulator |
| Base64.EncodeLetters | AgnssServer/Application.cpp:61-89 | the lagging inner loop of the second copy of the encoder emits the sextets of the input in order |
| Base64.EncodingAt | comn/src/Base64.cpp:68-96 | the groups of three are the stream of sextets padded to a multiple of four; 4 ceil(n/3) letters |
| Base64.LetterOfTable | comn/src/Base64.cpp:70-72 | the alphabet in ASCII codes |
| Base64.GroupDigits | comn/src/Base64.cpp:68-96 | the four sextets of a group are the digits to base 64 of its three octets |
| Base64.Decode | comn/src/Base64.cpp:39-60 | -1 if and only if a foreign character comes before the first '='; otherwise the octets of the letters, as far as they fit |
| Base64.RoundTrip | comn/src/Base64.cpp:39-96 | decoding an encoding gives the octets back |
| Base64.PublishedDecodes | AgnssServer/Application.cpp:370-374 | the text as sent decodes if and only if it ends in padding, and then to what was encoded |
| Base64.BundleFits | AgnssCommon/AgnssType.h:95-110 | a bundle of at most 658 bytes and its text fit the 2400-byte buffers |
| Md5.Context.constructor | comn/src/Md5.cpp:229-238 | the initial state and count |
| Md5.Context.Update | comn/src/Md5.cpp:250-282 | after any piece: the state is the fold of the whole blocks fed so far, the buffer holds the rest, the count is 8 times the length modulo 2^64 |
| Md5.CountsAdd | comn/src/Md5.cpp:258-262 | adding a length of up to 32 bits to the split count, the carry found by comparison |
| Md5.Context.Final | comn/src/Md5.cpp:294-319 | the digest of everything fed in, padded as in sections 3.1 and 3.2 of RFC 1321 |
| Md5.PaddedIsMessage | comn/src/Md5.cpp:294-319 | the padded message: the message, 80, the fewest zeros that leave eight octets of the last block, and there the length in bits modulo 2^64, low word first |
| Md5.WordOctets | comn/src/Md5.cpp:98-111 | a word is its four octets, least significant first |
| Md5.InitialOctets | comn/src/Md5.cpp:229-238 | the initial state octet by octet |
| Md5.StateWords | comn/src/Md5.cpp:294-319 | the digest is the four words of the state in order |
| Md5.DigestOf | comn/src/Md5.cpp:250-319 | the digest does not depend on how the message is cut into pieces |
| IniFile.IniFile.LoadText | comn/src/IniFile.cpp:28-111 | the two getline loops load the fold of the lines, whatever stale line the end of the file leaves |
| IniFile.IniFile.LoadHeader | comn/src/IniFile.cpp:37-53 | the leading comment lines become the file comment, and the first other line is kept |
| IniFile.IniFile.SaveText | comn/src/IniFile.cpp:114-144 | the printer's loops print the store |
| IniFile.SurvivesIffWellFormed | comn/src/IniFile.cpp:28-144 | a store survives saving and loading if and only if it is well formed |
| IniFile.LoadedIsWellFormed | comn/src/IniFile.cpp:28-111 | whatever the text, what is loaded is well formed |
| IniFile.LoadSaveLoad | comn/src/IniFile.cpp:28-144 | saving a loaded file and loading it again changes nothing |
| IniFile.CommentsCarried | comn/src/IniFile.cpp:62-100 | comment and unknown lines all go, in order, to the next entry, or still wait for one |
| IniFile.LineMeans | comn/src/IniFile.cpp:341-374 | the first character that is no space or tab makes a line a comment or a section; any other line with an = is an entry |
| IniFile.BlankMeans | comn/src/IniFile.cpp:341-374 | an empty line is skipped, one of spaces and tabs carried like an unknown one |
| IniFile.SectionNamed | comn/src/IniFile.cpp:376-385 | a section is named by what stands between its brackets |
| IniFile.EntrySplit | comn/src/IniFile.cpp:387-394 | an entry is split at its first = |
| IniFile.PrintedAs | comn/src/IniFile.cpp:114-144 | how one more entry and one more section are printed |
| RollingLog.FileLogWriter.Write | comn/src/CLog.cpp:1386-1420 | after every write the disk holds the end of the log, and the size promises hold |
| RollingLog.FileLogWriter.DoRollOver | comn/src/CLog.cpp:1507-1531 | rolling drops the oldest backup only; the rolled file has between the limit and the limit plus the longest line, once the writer has started it |
| RollingLog.FileLogWriter.Shift | comn/src/CLog.cpp:1514-1530 | the rename chain moves every file one up, gaps included |
| RollingLog.LogShifted | comn/src/CLog.cpp:1507-1531 | a roll takes the oldest backup off the front of the log and nothing else |
| RollingLog.FileLogWriter.Retention | comn/src/CLog.cpp:1386-1420 | what survives is a suffix, with at least min(written, backups times limit) of what was written |
| IoBuffer.IOBuffer.Expect | comn/include/TIOBuffer.h:80-129 | room is made, by moving or growing, and the contents stay the same |
| IoBuffer.IOBuffer.MoveData | comn/include/TIOBuffer.h:441-476 | the contents move to the front unchanged, every copy between ranges that do not overlap |
| IoBuffer.IOBuffer.MoveChunks | comn/include/TIOBuffer.h:455-472 | the chunked copies equal a full left shift |
| IoBuffer.IOBuffer.Write | comn/include/TIOBuffer.h:165-180 | octets join the end of the queue |
| IoBuffer.IOBuffer.Read | comn/include/TIOBuffer.h:147-163 | as many octets as asked for, or as there are, leave the front in the order written |
| IoBuffer.IOBuffer.Skip | comn/include/TIOBuffer.h:341-351 | all or none of the octets asked for leave the front |
| IoBuffer.ShiftMore | comn/include/TIOBuffer.h:455-472 | one more chunk copied extends the part already shifted |
| TimerQueue.InsertKeepsOrder | comn/src/CTimerQueue.cpp:117-122 | inserting at the upper bound keeps the list sorted, first in first out among equal expiries |
| TimerQueue.EveryRun | comn/src/CTimerQueue.cpp:105-178 | over every interleaving of locked steps the list stays in order and every task added is queued, running, cancelled or ended exactly once |
| TimerQueue.TakesEarliest | comn/src/CTimerQueue.cpp:133-154 | only a task of least expiry is taken, the first inserted among equals, at most 10 ms early; otherwise none is due |
| TimerQueue.RequeuedOnTime | comn/src/CTimerQueue.cpp:156-178 | a repeating task comes back at old expiry plus interval or clock plus interval, never before the reading tested |
| TimerQueue.CTimerQueue.AddExpiring | comn/src/CTimerQueue.cpp:105-115 | the locked second half of add at clock reading now: the list gets the task with its id, interval and repeat flag and expiry now plus interval, behind every task due no later and before every later one, the others as they were |
| TimerQueue.AddAndLook | comn/src/CTimerQueue.cpp:105-154 | so at a reading more than 10 ms before that it is not taken and still queued |
| TimerQueue.CTimerQueue.RemoveTask | comn/src/CTimerQueue.cpp:208-221 | the first task with the id goes and the others stay in order; the result says whether there was one |
| TimerQueue.CTimerQueue.CheckoutFront | comn/src/CTimerQueue.cpp:133-154 | the first task of the list if it is due within 10 ms, and it leaves the list; otherwise no task is, and the result is the time to wait, or -1 |
| TimerQueue.CTimerQueue.FinishTask | comn/src/CTimerQueue.cpp:161-177 | a repeating task whose handler asks for it goes back into the list, due one interval after it was due, or, when that has passed, one interval after the next reading; otherwise the list stays |
| TimeScales.CountsDays | AgnssServer/AssistData.c:309-322 | epoch2time counts the days of the Gregorian calendar month by month, 1970 to 2099 |
| TimeScales.Time2Epoch | AgnssServer/AssistData.c:802-818 | the search finds a valid epoch whose time is the given one, for every time before 2100 |
| TimeScales.StrictlyIncreasing | AgnssServer/AssistData.c:309-322 | a later date has a later time |
| TimeScales.CalendarRoundTrip | AgnssServer/AssistData.c:802-818 | from an epoch to its time and back is the identity |
| TimeScales.LeapsDescend | AgnssServer/AssistData.c:107-127 | the table is in descending order, with more than its offsets between entries |
| TimeScales.LeapTimes | AgnssServer/AssistData.c:107-127 | the dates of the table in Unix seconds |
| TimeScales.OffsetFrom | AgnssServer/AssistData.c:404-412 | from the i-th date of the table to the one after it GPS time is 18 - i seconds ahead of UTC |
| TimeScales.OffsetBefore | AgnssServer/AssistData.c:404-412 | before 1 July 1981 they agree |
| TimeScales.Utc2Gpst | AgnssServer/AssistData.c:404-412 | the time moved on by the offset of the first entry that the time has reached |
| TimeScales.Gpst2Utc | AgnssServer/AssistData.c:448-458 | the time moved back by the offset of the first entry reached after moving |
| TimeScales.OriginOfGpsTime | AgnssServer/AssistData.c:35 | the origin of GPS time is 6 January 1980 |
| TimeScales.UtcRoundTrip | AgnssServer/AssistData.c:404-458 | gpst2utc undoes utc2gpst for every time |
| TimeScales.GpstRoundTrip | AgnssServer/AssistData.c:404-458 | utc2gpst undoes gpst2utc if and only if the time is not inside an inserted leap second |

## Left out

- IEEE rounding, NaN and the decimal approximations of 2^-n and RANGE_MS arithmetic in doubles: reals are used. Conversions of out-of-range reals to int are taken as unbounded.
- Reading floats from bytes, and the GPS week adjusted by the clock (AgnssServer/AssistData.c:269-270, 419-427): functions in `RangeDecoder.Environment`, fixed over a run.
- nobs times 44 is computed without wrap-around, so an absurd record count is a length error; the extra options of checkpri are never set and are not modelled.
- A signal strength of 64 dBHz or more is converted to one byte by wrapping, which C leaves undefined.
- Doppler (rates are not part of MSM4), GLONASS frequency channels, and observations on other frequencies: satwavelen gives no wavelength for them and their phase offset is taken as 0.
- SignalProperties.PhaseDecodes: says nothing when no phase is measured, where the source sends the negated offset; only the field-range theorems cover that case.
- RtcmMessages.PhaseDelivered: the same restriction, and first frequency only; `ReceivedFrames.FrameGivesPhase` says when the field is marked also then.
- Satellites.SatelliteNumbersInvert: GPS and BeiDou only; QZSS numbers collide with BeiDou's because NSATQZS is redefined to 0.
- obs.data is a sequence, so entries behind its end do not exist; the comparison with data[0] of an empty set has no effect in the source either.
- The per-message arrays of the encoder (rough ranges, residuals, lock times) and the cp and lltime tables are sequences reassigned by the methods, so aliasing between them is not modelled.
- Nav data, ephemerides and the decoders not reached from decode_oem4; rtcm message counters; the date fields of AgnssParam.
- AssistData.AssistDataProcessor.GetOutput: the slot's frames are sequences; the copies into the fixed arrays of DgnssDatAll appear only as the size bounds.
- MD5Transform: the compression of one block is a parameter of `Md5`.
- Md5.Context.Update: pieces of up to 2^32 - 64 octets; beyond that the source's loop index wraps.
- IniFile: opening and closing files; lookup and modification by name.
- RollingLog: failing renames and opens, text formatting, roll counts of 0, and changes of limits during a run.
- IoBuffer: assign, ensure, and the stream and file helpers; getReadPos and getWritePos, which return each other's values.
- TimerQueue.CTimerQueue.Add: add as one call, with no other step between its two separately locked halves; what may come between them is covered by `TimerQueue.EveryRun`.
- TimerQueue: uniqueness of ids, which add does not guarantee because it removes and inserts under two separate locks; waiting and the handlers themselves.
- TimeScales: times before 1970, and the cast of fractional date fields.
- All networking, JSON, threads and the Java side.
