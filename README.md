# Optris CT driver — a Dafny model

This project models the host side of the serial protocol for Optris CT
infrared thermometers, and proves properties of that model:

- **`OptrisCtManager`**: checksums, command frames, reply decoding, the two
  constructors' validation, the read/write exchanges with their bounded poll
  loop, emissivity, serial number and firmware reads, and both monitoring
  loops (one address, and line mode over several addresses).
- **The `temperatures` command's option checks**: the `;`-separated address
  list becomes address bytes, the `;`-separated correction list becomes a
  dictionary with positional keys, and the two must have equal length.
- **The `--port` option parser**.

The project is split into modules:

| file | module | what it holds |
|---|---|---|
| `wrappers.dfy` | `Wrappers` | `Option` and `Result` |
| `bytes.dfy` | `Bytes` | the `byte` type and its conversions to and from `int` |
| `single.dfy` | `Single` | rounding to IEEE 754 single precision (`float`), nearest with ties to even |
| `codec.dfy` | `Codec` | opcodes, the wrapping byte counter used for dictionary keys, the XOR checksum (a loop, proved against `XorFold`), read/write frames, `BitConverter` byte order, `ConvertToCelsius`, `ConvertToFloat` |
| `polling.dfy` | `Polling` | what one exchange sees of the line: the reply buffer at each check of the sleep loop, and where the loop stops |
| `sampling.dfy` | `Sampling` | both monitoring loops as specification functions over a stopwatch oracle; the split of a line-mode reply into per-address temperatures; recording a reading into per-address series |
| `manager.dfy` | `OptrisCT` | class `OptrisCtManager` (its fields updated in place by its methods, each proved against the specification functions), the constructors as factory methods, and the constructor checks |
| `string_split.dfy` | `StringSplit` | `Split(';', TrimEntries \| RemoveEmptyEntries)`, `char.IsWhiteSpace` and `string.Length` in UTF-16 code units |
| `read_temperatures.dfy` | `ReadTemperatures` | `SplitAddresses`, `SplitCorrections` and the early-return checks of `ExecuteCommand` |
| `common_options.dfy` | `CommonOptions` | `ParseComPortArgument` |

**Modelling choices.**

- Bytes are `bv8`, so `(byte)` casts and the `0xB0 + address` sum wrap as in C#.
- The byte counters of `SplitCorrections` and `SplitReadTemperatures`, and the keys of their dictionaries, are held as integer values 0..255 (`Codec.ByteCounter`). The increment wraps with `% 256`.
- Strings are sequences of Unicode scalar values. `string.Length` is modelled as the UTF-16 length, in which a character above U+FFFF counts twice.
- The serial port is replaced by data:
  - An `Arrivals` value lists the bytes the receive handler appends before each check of the poll loop.
  - A `Script` gives the arrivals for the k-th exchange of a loop.
  - Every frame written is logged in the ghost field `sent`.
- The stopwatch is a strictly increasing `Clock` (`nat -> int`). Reading j is `clock(j)`.
  - Each loop test reads the clock.
  - A successful reply reads it once more, for the sample's key.
- `decimal` is `real`.
- OptrisCT.Milli: NaN passes the C# range check of `SetEmissivity` (both comparisons are false) and is not modelled, because a `real` has no NaN. The argument is any real in the range, not only a value a `float` can hold; the rounding is exact for those that are.
- `decimal.TryParse` is the caller-supplied `parse` function.
- A `float` argument is its exact value as a `real`. The product `value * 1000` is rounded to single precision (`Single.Round`) before the cast truncates it.
- Emissivities read from the device are handled in integer milli-units.
- Exceptions become error values:
  - the constructors' exceptions become `ManagerError`;
  - the dictionary's duplicate-key exception becomes `DuplicateAddressKey` or `DuplicateCorrectionKey`;
  - the `NullReferenceException` of line mode on an instance built from one address (`OptrisCT/OptrisCtManager.cs:271`) becomes `NullAddressList`;
  - the `InvalidOperationException` of `Single()` on several port tokens (`CLI/CommonOptions.cs:65`) becomes `PortError.MoreThanOneToken`.
- The open/close probe of the port becomes the boolean `portOpens`.

Two details of the code the model keeps:

- No monitoring loop of the manager takes correction values. The line-mode loop adds the constant 0 (`OptrisCT/OptrisCtManager.cs:286`).
- `SetEmissivity` (`OptrisCT/OptrisCtManager.cs:215`) computes `value * 1000` in single precision and then truncates it toward zero. So 0.95f, exactly 0.949999988079…, goes out as 950 (`OptrisCT.MilliOfSingles`).

Worth knowing, as written:

- `SplitAddresses` checks only the length of an entry, counted in UTF-16 code units. Any single character of the Basic Multilingual Plane becomes the byte `c - '0'` (low 8 bits). A character above U+FFFF is two code units and is refused (`ReadTemperatures.SupplementaryCharacterRefused`).
  - So `"ı"` (U+0131) is read as address 1 (`ReadTemperatures.WrappedCharacterAddress`).
- Address 1..4 is only checked by the manager.
  - Once the options pass, the correction keys force the addresses to be exactly 1..n whenever there are at most four (`ReadTemperatures.ValidatedAddresses`).
  - A fifth address must be 5 (`ReadTemperatures.FifthAddressListed`), which the manager then refuses.

## Model

| member | source | states |
|---|---|---|
| Codec.CalculateChecksum | OptrisCT/OptrisCtManager.cs:376-390 | the loop returns the XOR of all input bytes, 0 for no input |
| Codec.XorFoldAppend | OptrisCT/OptrisCtManager.cs:376-390 | the checksum of a concatenation is the XOR of the two checksums |
| Codec.XorFoldSwap | OptrisCT/OptrisCtManager.cs:376-390 | the checksum does not depend on the order of two halves |
| Codec.XorFoldSealed | OptrisCT/OptrisCtManager.cs:376-390 | a sequence followed by its own checksum XORs to 0 |
| Codec.Max | OptrisCT/OptrisCtManager.cs:274 | the largest address is in the list and no listed address exceeds it |
| Codec.CodesDistinct | OptrisCT/OptrisCtManager.cs:56-65 | `Command.Code` gives the opcodes of `OptrisCommands`, and no two commands share one |
| Codec.ByteCounter | OptrisCT.cmd/Commands/ReadTemperatures.cs:152-164 | a byte counter started at 1 holds i+1 after i increments, a byte value, and 0 after 255 (also the chunk keys of `SplitReadTemperatures`, lines 403-408 of the manager) |
| Codec.ReadFrame | OptrisCT/OptrisCtManager.cs:315-322 | a read frame is `0xB0 + multiAddress`, the opcode, then the suffix unchanged |
| Codec.WriteFrame | OptrisCT/OptrisCtManager.cs:350-353 | a write frame has 3 + n bytes: `0xB0 + multiAddress`, the opcode, the value bytes reversed, then the checksum |
| Codec.WriteFrameSealed | OptrisCT/OptrisCtManager.cs:350-353 | a write frame has 3 + n bytes, starts with `0xB0 + multiAddress`, and its bytes after the address byte XOR to 0 |
| Codec.WriteFrameOfPair | OptrisCT/OptrisCtManager.cs:350-353 | a two-byte value is sent reversed, followed by the XOR of opcode and value |
| Codec.LineModeSuffix | OptrisCT/OptrisCtManager.cs:271-282 | the line-mode suffix is the largest listed address followed by its XOR with the line-mode opcode |
| Codec.LineModeFrame | OptrisCT/OptrisCtManager.cs:266-284 | the line-mode frame is `[0xB0, 0x2E, m, 0x2E ^ m]`, m the largest listed address, and its checksummed part XORs to 0 |
| Codec.EmissivityFrame | OptrisCT/OptrisCtManager.cs:215-216 | the emissivity frame is `[0xB0 + a, 0x84, hi, lo, 0x84 ^ hi ^ lo]` for the milli-units |
| Codec.ToShort | OptrisCT/OptrisCtManager.cs:271 | `(short)x` lies in [-32768, 32768) and agrees with x modulo 65536 |
| Codec.Int16BytesRoundTrip | OptrisCT/OptrisCtManager.cs:215 | `BitConverter.GetBytes(short)` read back with `ToInt16` gives the value |
| Codec.ConvertToCelsius | OptrisCT/OptrisCtManager.cs:419-427 | the sentinel `decimal.MinValue` unless 2 bytes; else 10·t = raw − 1000, so t lies in [−100, 6453.5] |
| Codec.CelsiusExample | OptrisCT/OptrisCtManager.cs:426 | raw 10000 is 900 °C, raw 1000 is 0 °C, raw 0 is −100 °C |
| Codec.ConvertToFloat | OptrisCT/OptrisCtManager.cs:434-442 | a value exactly for 2-byte input: the big-endian raw value, in milli-units |
| Codec.RatioRoundTrip | OptrisCT/OptrisCtManager.cs:215-224 | the echo of an emissivity write, reversed back, decodes to the written milli-units |
| Codec.SerialNumberValue | OptrisCT/OptrisCtManager.cs:168-170 | reversed reply plus a zero byte, read as Int32, is the 24-bit big-endian value of the 3 reply bytes |
| Codec.FwVersionValue | OptrisCT/OptrisCtManager.cs:185-186 | the reversed 2-byte reply read as Int16 is the signed big-endian value |
| Polling.DefaultBudget | OptrisCT/OptrisCtManager.cs:330 | with the 1000 ms wait and the 30 ms delay the loop sleeps at most 33 times |
| Polling.StopTickFirst | OptrisCT/OptrisCtManager.cs:329-337 | `StopTick`: the poll loop stops at the first check whose buffer holds byteCount bytes, or at the budget with no earlier match |
| Polling.SucceedsIff | OptrisCT/OptrisCtManager.cs:329-337 | `Reply`: an exchange succeeds iff some check within the budget sees exactly byteCount bytes |
| Polling.ReceivedGrows | OptrisCT/OptrisCtManager.cs:457-464 | the buffer only grows: an earlier buffer is a prefix of a later one |
| Polling.OverlongReplyFails | OptrisCT/OptrisCtManager.cs:330-337 | more bytes than expected at the first check make the exchange fail |
| Polling.ImmediateReply | OptrisCT/OptrisCtManager.cs:330-337 | a reply complete before the first check is returned unchanged |
| Sampling.MonitorSeries | OptrisCT/OptrisCtManager.cs:233-249 | monitoring only appends, with strictly increasing keys and temperatures in [−100, 6453.5]; no duplicate-key throw, given the strictly increasing `Clock` |
| Sampling.MonitorSamples | OptrisCT/OptrisCtManager.cs:239-245 | monitoring only appends; the samples added are exactly as many as the exchanges with a complete two-byte reply, so a failed exchange adds none and at most one sample is added per exchange |
| Sampling.MonitorNextSample | OptrisCT/OptrisCtManager.cs:239-245 | an exchange made before the duration is up that gets a complete reply stores its temperature under the next stopwatch reading as the next sample |
| Sampling.MonitorSilent | OptrisCT/OptrisCtManager.cs:239-245 | if no exchange succeeds, nothing is recorded |
| Sampling.MonitorExchanges | OptrisCT/OptrisCtManager.cs:239-245 | the loop makes no more exchanges than milliseconds remain |
| Sampling.ChunkIndexOfKey | OptrisCT/OptrisCtManager.cs:403-408 | among the first 256 chunks, a key identifies its chunk |
| Sampling.ChunkKeyNext | OptrisCT/OptrisCtManager.cs:408 | the next key is the byte increment of the current one |
| Sampling.ChunkKeyStep | OptrisCT/OptrisCtManager.cs:403-408 | the counter's key is new for the first 256 chunks and repeats at the 257th |
| Sampling.ChunkValues | OptrisCT/OptrisCtManager.cs:398-412 | `ChunkTemperatures`, up to 256 chunks, is defined, and chunk i is stored under key i+1 (mod 256), no other key exists, all values are in range |
| Sampling.SplitStep | OptrisCT/OptrisCtManager.cs:404-408 | storing the next chunk under a free key extends the split by one chunk |
| Sampling.ChunkTemperaturesUnique | OptrisCT/OptrisCtManager.cs:398-412 | a map with those keys and values is the split |
| Sampling.ChunkKeysAreAddresses | OptrisCT/OptrisCtManager.cs:392-395 | below 256 chunks the keys are exactly the addresses 1..n, not the listed addresses |
| Sampling.FullReplyWrapsToZero | OptrisCT/OptrisCtManager.cs:403-408 | a 512-byte reply stores its last chunk under key 0 |
| Sampling.OverlongReplyRejected | OptrisCT/OptrisCtManager.cs:407 | a 257th chunk makes `ChunkTemperatures` fail (the dictionary throws) |
| Sampling.OddByteIgnored | OptrisCT/OptrisCtManager.cs:404 | a trailing odd byte does not change the split |
| Sampling.Record | OptrisCT/OptrisCtManager.cs:289-297 | after a reading, the keys are the old keys plus the reading's keys |
| Sampling.RecordKeysNone | OptrisCT/OptrisCtManager.cs:289-297 | recording no key changes nothing |
| Sampling.RecordKeysStep | OptrisCT/OptrisCtManager.cs:289-297 | recording one more key adds its sample to that key's (new or existing) series only |
| Sampling.AppendSample | OptrisCT/OptrisCtManager.cs:296 | appending a later sample keeps a series chronological and in range |
| Sampling.RecordSeries | OptrisCT/OptrisCtManager.cs:289-297 | each key of a reading gains exactly one sample at the reading's timestamp |
| Sampling.RecordAligned | OptrisCT/OptrisCtManager.cs:286-297 | a full reading keeps all series on the same timestamps |
| Sampling.LineModeAligned | OptrisCT/OptrisCtManager.cs:257-303 | with ≤255 addresses line mode never fails; series exist for keys 1..n (or none), share timestamps, and are chronological and in range |
| Sampling.LineModeOutcome | OptrisCT/OptrisCtManager.cs:257-303 | `LineModeRun` counts its exchanges, never drops an address's series, and fails with the missing-list error iff there is no list |
| Sampling.LineModeSilent | OptrisCT/OptrisCtManager.cs:268-299 | with a list and no successful exchange, line mode returns the series it started with |
| Sampling.NullListFails | OptrisCT/OptrisCtManager.cs:268-271 | on a single-address instance, line mode fails iff its loop body runs |
| Sampling.OverlongListFails | OptrisCT/OptrisCtManager.cs:271-288 | with 257 to 16383 addresses the first complete reply ends in the duplicate-key failure |
| Sampling.WrappedCountSilent | OptrisCT/OptrisCtManager.cs:268-299 | with 16384 to 32767 addresses the `(short)` byte count is negative, so no exchange succeeds and line mode returns the series it started with |
| OptrisCT.FirstInvalid | OptrisCT/OptrisCtManager.cs:85-88 | no address is reported iff all are in 1..4; a reported address is listed and invalid |
| OptrisCT.FirstInvalidAt | OptrisCT/OptrisCtManager.cs:85-88 | the reported address is the one at the first invalid position |
| OptrisCT.ListCheck | OptrisCT/OptrisCtManager.cs:73-90 | the list constructor accepts iff port name non-empty, list non-empty, all addresses in 1..4 and the port opens; the error is that of the first failing check |
| OptrisCT.AddressCheck | OptrisCT/OptrisCtManager.cs:106-118 | the single-address constructor accepts iff port name non-empty, address in 1..4 and the port opens |
| OptrisCT.ListCheckedBeforePort | OptrisCT/OptrisCtManager.cs:75-90 | a refused list is refused whatever the port does, with an error other than the port's |
| OptrisCT.AddressCheckedBeforePort | OptrisCT/OptrisCtManager.cs:108-118 | a refused address is refused whatever the port does |
| OptrisCT.Milli | OptrisCT/OptrisCtManager.cs:215 | `(short)(value * 1000)` for a value in [0, 1.1] is the truncation of the single-precision product, in [0, 1100] |
| OptrisCT.MilliOfSingles | OptrisCT/OptrisCtManager.cs:215 | 0.95f and 0.7f go out as 950 and 700, not 949 and 699 |
| Single.ExponentFrom | OptrisCT/OptrisCtManager.cs:215 | the binary exponent found is the largest at most the start whose power does not exceed x, never below the smallest normal exponent |
| Single.Spacing | OptrisCT/OptrisCtManager.cs:215 | below 2048 the distance between neighbouring single-precision numbers is positive and at most 2^-13 |
| Single.RoundHalfEven | OptrisCT/OptrisCtManager.cs:215 | the integer chosen is within one half of y, and is even when y lies exactly halfway |
| Single.Round | OptrisCT/OptrisCtManager.cs:215 | the single-precision product is a whole multiple of the spacing (a binary32 number), non-negative, within half a spacing of the exact product, and an even multiple on a tie |
| Single.RoundNearest | OptrisCT/OptrisCtManager.cs:215 | no binary32 number of that spacing lies nearer to the exact product than the rounded one |
| Single.RoundNear | OptrisCT/OptrisCtManager.cs:215 | rounding a product below 2048 moves it by at most 2^-14 |
| Single.GridExact | OptrisCT/OptrisCtManager.cs:215 | a value that is already a multiple of the spacing is left unchanged by rounding |
| Codec.ShortKeeps | OptrisCT/OptrisCtManager.cs:215 | the `(short)` cast keeps every value that fits in 16 signed bits |
| OptrisCT.EmissivityReadBack | OptrisCT/OptrisCtManager.cs:195-224 | every float the range check accepts (at most 1.0999999046…), once written, reads back as accepted with the same milli-units |
| OptrisCT.EchoMatches | OptrisCT/OptrisCtManager.cs:223-224 | the reversed echo equals the sent bytes iff the echo is the value high byte first |
| OptrisCT.OptrisCtManager.FromAddressList | OptrisCT/OptrisCtManager.cs:73-99 | fails exactly as ListCheck says; otherwise a valid manager holding a copy of the list, multi-address 0, empty buffer |
| OptrisCT.OptrisCtManager.FromAddress | OptrisCT/OptrisCtManager.cs:106-122 | fails exactly as AddressCheck says; otherwise a valid manager with no list and the given address |
| OptrisCT.OptrisCtManager.Exchange | OptrisCT/OptrisCtManager.cs:324-337 | logs the frame, leaves the buffer as at the check where the loop stops, and returns success iff its length is byteCount |
| OptrisCT.OptrisCtManager.ExecuteReadCommand | OptrisCT/OptrisCtManager.cs:313-338 | sends the read frame and ends as Exchange does |
| OptrisCT.OptrisCtManager.ExecuteWriteCommand | OptrisCT/OptrisCtManager.cs:348-369 | sends the write frame (value reversed, checksum appended) and ends as Exchange does |
| OptrisCT.OptrisCtManager.ReadSerialNumber | OptrisCT/OptrisCtManager.cs:160-171 | 0 without a 3-byte reply, else the reply's 24-bit big-endian value |
| OptrisCT.OptrisCtManager.ReadFwVersion | OptrisCT/OptrisCtManager.cs:177-187 | 0 without a 2-byte reply, else the reply as signed big-endian 16 bits |
| OptrisCT.OptrisCtManager.ReadEmissivity | OptrisCT/OptrisCtManager.cs:193-200 | a value iff a 2-byte reply came whose raw value passes the 1.1 check, and then that raw value |
| OptrisCT.OptrisCtManager.SetEmissivity | OptrisCT/OptrisCtManager.cs:207-225 | out of [0, 1.1] nothing is sent and false returned; else the emissivity frame is sent and the result is true iff the echo equals the value high byte first |
| OptrisCT.OptrisCtManager.WriteMilli | OptrisCT/OptrisCtManager.cs:215-224 | sends the frame for the milli-units and succeeds iff they are echoed |
| OptrisCT.OptrisCtManager.SplitReadTemperatures | OptrisCT/OptrisCtManager.cs:398-412 | the loop's result is the chunk split of the buffer (failing on a repeated key) |
| OptrisCT.OptrisCtManager.RequestLineMode | OptrisCT/OptrisCtManager.cs:271-284 | sends the broadcast line-mode frame and expects `(short)(2·n)` bytes |
| OptrisCT.OptrisCtManager.LineModeTurn | OptrisCT/OptrisCtManager.cs:268-298 | one loop turn agrees with the line-mode specification; it can fail only with more than 256 addresses |
| OptrisCT.OptrisCtManager.MonitorTemperature | OptrisCT/OptrisCtManager.cs:233-249 | the loop's result, buffer and frames are those of the specification; the series is chronological and in range |
| OptrisCT.OptrisCtManager.LineModeLoop | OptrisCT/OptrisCtManager.cs:268-299 | the line-mode loop over a list ends as `LineModeRun` says, having sent one broadcast frame per exchange |
| OptrisCT.OptrisCtManager.MonitorTemperatureLineMode | OptrisCT/OptrisCtManager.cs:257-303 | sets multi-address 0; result, buffer and frames are those of the specification; with ≤255 addresses the series are aligned and chronological |
| OptrisCT.RecordReading | OptrisCT/OptrisCtManager.cs:286-297 | the foreach over a reading adds each value plus the zero correction to its key's series |
| StringSplit.Utf16Length | OptrisCT.cmd/Commands/ReadTemperatures.cs:132 | `Length` counts UTF-16 code units: at least one and at most two per character |
| StringSplit.SingleUnit | OptrisCT.cmd/Commands/ReadTemperatures.cs:132 | a string is one code unit long iff it is one character of the Basic Multilingual Plane |
| StringSplit.JoinFields | OptrisCT.cmd/Commands/ReadTemperatures.cs:130 | the pieces of a split, joined with the separator, give back the string; no piece holds a separator |
| StringSplit.FieldsOfJoin | OptrisCT.cmd/Commands/ReadTemperatures.cs:130 | separator-free pieces, joined and split, come back unchanged |
| StringSplit.LeadingSpace | OptrisCT.cmd/Commands/ReadTemperatures.cs:130 | counts the white space opening the string: every counted character is white space and the next one is not |
| StringSplit.TrailingSpace | OptrisCT.cmd/Commands/ReadTemperatures.cs:130 | counts the white space closing the string: every counted character is white space and the one before is not |
| StringSplit.TrimProperties | OptrisCT.cmd/Commands/ReadTemperatures.cs:130 | Trim yields a run of the input with neither end white space, and leaves trimmed text alone |
| StringSplit.EntriesShape | OptrisCT.cmd/Commands/ReadTemperatures.cs:130 | every entry is non-empty, trimmed and free of the separator |
| StringSplit.EntriesOfJoin | OptrisCT.cmd/Commands/ReadTemperatures.cs:130 | non-empty trimmed separator-free entries, joined and split, come back unchanged |
| ReadTemperatures.AddressBytesSpec | OptrisCT.cmd/Commands/ReadTemperatures.cs:130-140 | the split succeeds iff every entry is one UTF-16 code unit (one character of the Basic Multilingual Plane), giving one byte `c − '0'` per entry in order; the only error is the address-entry error |
| ReadTemperatures.SplitAddresses | OptrisCT.cmd/Commands/ReadTemperatures.cs:124-144 | the loop's result is AddressBytes of the list's entries |
| ReadTemperatures.AddressTextRoundTrip | OptrisCT.cmd/Commands/ReadTemperatures.cs:128-140 | a `;`-joined list of digits splits back into exactly those addresses |
| ReadTemperatures.NoAddresses | OptrisCT.cmd/Commands/ReadTemperatures.cs:128 | a missing or empty list gives no addresses |
| ReadTemperatures.SingleCharacter | OptrisCT.cmd/Commands/ReadTemperatures.cs:130-138 | one non-blank character other than `;` is one address `c − '0'` when it is one UTF-16 code unit, and is refused when it is two |
| ReadTemperatures.WrappedCharacterAddress | OptrisCT.cmd/Commands/ReadTemperatures.cs:138 | `"ı"` becomes address 1, which the manager accepts |
| ReadTemperatures.SupplementaryCharacterRefused | OptrisCT.cmd/Commands/ReadTemperatures.cs:132-134 | U+10131, two UTF-16 code units, makes the address list fail |
| ReadTemperatures.CommaToPoint | OptrisCT.cmd/Commands/ReadTemperatures.cs:155 | same length; each `,` becomes `.` and every other character stays |
| ReadTemperatures.CorrectionsStep | OptrisCT.cmd/Commands/ReadTemperatures.cs:155-165 | an acceptable entry stores its value under a fresh key and moves on |
| ReadTemperatures.EntryRejected | OptrisCT.cmd/Commands/ReadTemperatures.cs:157-169 | an entry whose key is unlisted or whose text does not parse stops the split with that entry's error |
| ReadTemperatures.EntryAccepted | OptrisCT.cmd/Commands/ReadTemperatures.cs:157-165 | a split that succeeds from an entry on accepted that entry |
| ReadTemperatures.Advance | OptrisCT.cmd/Commands/ReadTemperatures.cs:157-165 | one step of a successful split: the entry was acceptable, its key was fresh, the keys grow to 1..pos+1 and the rest still ends in the same dictionary |
| ReadTemperatures.CorrectionsFromSucceeds | OptrisCT.cmd/Commands/ReadTemperatures.cs:153-170 | up to 255 entries: the split succeeds iff each entry's key is a listed address and its text parses |
| ReadTemperatures.CorrectionsFromKeys | OptrisCT.cmd/Commands/ReadTemperatures.cs:164 | on success the keys are exactly 1..n and earlier values stay |
| ReadTemperatures.CorrectionsFromValues | OptrisCT.cmd/Commands/ReadTemperatures.cs:155-165 | on success entry i, with `,` read as `.`, parses to the value under key i+1 |
| ReadTemperatures.StoredAt | OptrisCT.cmd/Commands/ReadTemperatures.cs:155-165 | on success one given entry's parsed value is the one under its key i+1 |
| ReadTemperatures.CorrectionsFromFailure | OptrisCT.cmd/Commands/ReadTemperatures.cs:157-169 | the first unacceptable entry decides the error, and an unlisted key is reported before a bad number |
| ReadTemperatures.CorrectionsAccepted | OptrisCT.cmd/Commands/ReadTemperatures.cs:157-165 | a successful split of any length accepted each of its first 255 entries |
| ReadTemperatures.NoCorrections | OptrisCT.cmd/Commands/ReadTemperatures.cs:150 | a missing or empty list gives an empty dictionary |
| ReadTemperatures.SplitCorrections | OptrisCT.cmd/Commands/ReadTemperatures.cs:146-174 | the loop's result is Corrections of the list's entries |
| ReadTemperatures.CheckOptions | OptrisCT.cmd/Commands/ReadTemperatures.cs:69-91 | the early-return sequence gives Validate's outcome |
| ReadTemperatures.AddressesNeedCorrections | OptrisCT.cmd/Commands/ReadTemperatures.cs:86-91 | addresses without corrections always fail the count check |
| ReadTemperatures.CounterListed | OptrisCT.cmd/Commands/ReadTemperatures.cs:157 | in a checked list, the key of every one of the first 255 entries is a listed address |
| ReadTemperatures.ListedAccepted | OptrisCT.cmd/Commands/ReadTemperatures.cs:157-164 | in a checked list, the keys 1..n of an accepted prefix are all listed addresses |
| ReadTemperatures.CheckedKeys | OptrisCT.cmd/Commands/ReadTemperatures.cs:164 | a checked list of n ≤ 255 corrections has exactly the keys 1..n |
| ReadTemperatures.ValidatedAddresses | OptrisCT.cmd/Commands/ReadTemperatures.cs:69-91 | after the checks, at most four addresses are all in 1..n |
| ReadTemperatures.FifthAddressListed | OptrisCT.cmd/Commands/ReadTemperatures.cs:157-164 | after the checks, more than four addresses include 5 |
| ReadTemperatures.ValidatedListAccepted | OptrisCT.cmd/Commands/ReadTemperatures.cs:86-95 | checked options pass the manager's list checks iff there are one to four addresses (and then only the port can fail) |
| CommonOptions.ParseComPortArgument | CLI/CommonOptions.cs:60-78 | missing iff no token, an error iff more than one, accepted iff one token starting with "COM" in any case; the result upper-cased and starting with "COM" |
| CommonOptions.UpperIdempotent | CLI/CommonOptions.cs:69 | upper-casing twice changes nothing and leaves no lower-case letter |
| CommonOptions.ToUpperIdempotent | CLI/CommonOptions.cs:69 | `ToUpperInvariant` of an upper-cased string is itself |
| CommonOptions.StartsWithUpper | CLI/CommonOptions.cs:67 | the case-insensitive prefix test equals comparing the upper-cased texts |
| CommonOptions.CaseInsensitive | CLI/CommonOptions.cs:67-69 | tokens that differ only in letter case parse to the same outcome |
| CommonOptions.ParseIdempotent | CLI/CommonOptions.cs:65-70 | an accepted port, parsed again, is returned unchanged |
| CommonOptions.InvalidPrefix | CLI/CommonOptions.cs:72-73 | a token without the prefix gives the invalid-value error naming the argument |
| CommonOptions.NoToken | CLI/CommonOptions.cs:76-77 | with no token the message is "COM port is missing" |

## Left out

- Serial I/O:
  - Opening, writing, closing and disposing of the port, and the asynchronous receive handler, are replaced by the arrival script.
  - Races between the handler and the poll loop are not modelled.
  - A handler that reads more than 1024 bytes at once is not modelled.
  - Each exchange subscribes the receive handler again, so later exchanges run several handlers on the same port. The model has one reader that sees every arriving byte once.
- `Thread.Sleep` and `Stopwatch` are replaced by the poll-check count and the clock oracle. Real elapsed time is not modelled.
- Float arithmetic:
  - `SetEmissivity` takes the float argument's exact value as a `real`. The float/double comparison with `1.1` in its range check is modelled as exact.
  - The product `value * 1000` is rounded to single precision (`Single.Round`) and then truncated, as the cast does.
  - `ReadEmissivity` compares raw/1000 in single precision with 1.1. It is modelled as `raw < 1100`, which is where the single-precision quotient first exceeds the double 1.1.
  - `ConvertToFloat` returns milli-units, not the float quotient.
- `decimal.TryParse` with `NumberStyles.Any` is the opaque parameter `parse`. The `decimal` range and precision are not modelled.
- The correction lemmas (`CorrectionsFromSucceeds`, `CorrectionsFromKeys`, `CorrectionsFromValues`, `StoredAt`, `CorrectionsFromFailure`, `CorrectionsAccepted`, `Advance`) characterise lists of at most 255 corrections.
  - Longer lists need the byte counter to wrap through 0.
  - `SplitCorrections` and `Corrections` still model them exactly, including the duplicate-key error on the wrapped counter.
- A repeated key in `SplitCorrections` throws outside the command's `try` block. The model returns the `DuplicateCorrectionKey` error instead of an unhandled exception.
- Error message texts:
  - `CommandError` and `ManagerError` name the failing check but not the formatted message or resource string.
  - `CommonOptions.ErrorMessage` gives the port parser's texts.
- CommonOptions.ParseComPortArgument: only ASCII letters change case.
  - The culture-aware comparison of `InvariantCultureIgnoreCase` (ignorable code points, non-ASCII case pairs) is left out.
  - So is non-ASCII upper-casing in `ToUpperInvariant`.
- OptrisCT.OptrisCtManager.FromAddressList: a null address list, which throws `NullReferenceException` at `OptrisCT/OptrisCtManager.cs:80`, is not modelled; the list is a `seq`, which is never null.
- `string.IsNullOrEmpty(comPort)` is the empty-name check. A null port name is the empty string in the model.
- The rest of `ExecuteCommand` after the checks is not modelled: building the manager, monitoring, CSV logging and JSON output. Only the link to the manager's list checks is proved (`ValidatedListAccepted`).
- `ParseArgument<T>`, the other commands, the generated resources, the host wiring and the hardware tests are not part of this model.
- The transmissivity operations and the correction-taking monitor overloads that callers use do not exist in the manager modelled here.
