# arduino-serial-bridge in Dafny

The bridge reads lines of the form `value|voltage|current` from an Arduino
on a serial port. It turns each line into a telemetry request and sends it
over gRPC to a sink, which echoes the request's hash back. This project
models three pieces of `main.go`:

- **`ConstructTelemetry`** (module `Telemetry`). It splits the line on the
  separator and demands at least three fields. Field 0 is parsed as a Go
  `int` and narrowed to `int32`; fields 1 and 2 are parsed as floats. The
  errors are checked in that order. The `Hash` field is the SHA-1 digest
  of `timestamp|line`, in padded URL-safe base64. Go's library routines
  that it relies on are modelled concretely:
  - `strings.Split` and `strings.Join` (module `GoStrings`);
  - `strconv.Atoi` and the `int32` conversion (module `StrConv`);
  - `base64.URLEncoding` (module `Base64Url`, section 5 of RFC 4648).
- **The `grpcwait` loop** (module `GrpcWait`). This is the `select` that
  waits for a gRPC connection. It is modelled as a state machine over a
  trace of `select` cases: the timeout ticker, the retry ticker with the
  outcome of the dial, and the read of the one-slot `connected` channel.
  The loop is given twice, as written and as evidently intended (see
  Findings).
- **The scanner loop** (module `Pipeline`). Each line ends in one of four
  outcomes: conversion failed, send failed, hash mismatch, or confirmed. A
  method runs the loop over a sequence of lines.

Strings are byte sequences (`seq<bv8>`). The clock reading, the float
parser and SHA-1 are parameters of the model.

## Model

| member | source | states |
|---|---|---|
| GoStrings.Split | main.go:71 | `strings.Split` with a non-empty separator always yields at least one field |
| GoStrings.IndexSpec | main.go:71 | the separator search finds an occurrence exactly when one exists, and it finds the leftmost |
| GoStrings.JoinSplit | main.go:71 | joining the fields of a split with the separator gives back the line |
| GoStrings.SplitAtLeftmost | main.go:71 | for any non-empty separator, the first field ends at the leftmost occurrence and the other fields are the split of the text after it |
| GoStrings.SplitWithoutSeparator | main.go:71 | a line without the separator is a single field |
| GoStrings.SplitPiecesFree | main.go:71 | no field of a split contains the separator |
| GoStrings.SplitAppendSingle | main.go:71 | with a one-byte separator, splitting `a + sep + b` gives the fields of `a` followed by the fields of `b` |
| GoStrings.SplitJoinSingle | main.go:71 | with a one-byte separator, splitting the join of separator-free fields gives those fields back |
| StrConv.Atoi | main.go:75 | `strconv.Atoi` succeeds exactly on an optional sign followed by at least one decimal digit whose signed value lies in the 64-bit range, and it then returns that value; every string of up to 18 digits, bare or after a minus sign, is in range |
| StrConv.AtoiEdges | main.go:75 | a sign alone and a 19-digit value past the 64-bit range are errors; a plus sign and leading zeros are accepted |
| StrConv.AtoiItoa | main.go:75 | every 64-bit integer, rendered in decimal, parses back to itself |
| StrConv.WrapInt32 | main.go:102 | `int32(v)` is the unique 32-bit value congruent to `v` modulo 2^32, and it is `v` itself when `v` fits |
| Base64Url.Encode | main.go:97 | the encoding has four characters for every started group of three bytes |
| Base64Url.EncodePadded | main.go:97 | the encoding is alphabet characters followed by exactly the padding RFC 4648 prescribes for the input length |
| Base64Url.DecodeEncode | main.go:97 | a strict decoder recovers every byte string from its encoding |
| Base64Url.EncodeInjective | main.go:97 | distinct digests give distinct `Hash` strings |
| Telemetry.MacInput | main.go:92 | the hashed text is the timestamp, one bar character, then the raw line |
| Telemetry.MacInputInjective | main.go:92 | when the timestamp holds no bar character, the hashed text determines both the timestamp and the line |
| Telemetry.Fingerprint | main.go:93-97 | the hash is 28 characters: 27 from the URL-safe alphabet and one final `=`; it decodes to the SHA-1 digest of the hashed text |
| Telemetry.FingerprintBinds | main.go:90-97 | equal hashes mean equal timestamps and lines, unless SHA-1 collides on the two texts |
| Telemetry.ConstructTelemetry | main.go:70-107 | each of the four errors occurs exactly when its check is the first to fail: fewer than three fields, then the value, the voltage, the current; on success, the record's timestamp is the clock reading that was hashed, and the other fields come from the first three fields |
| Telemetry.NoDelimiterRejected | main.go:71-74 | a line without the separator is rejected with `MinimumMatchNotFound`, whose message is "Minimum match not found" |
| Telemetry.ExtraFieldsIgnored | main.go:71-89 | once a line has three fields, appending a separator and anything else changes neither the reading nor the error |
| Telemetry.IntegerRoundTrip | main.go:75-102 | a line made of a rendered 64-bit integer and two parsable floats succeeds, with the integer narrowed to 32 bits; the value is exact when it fits |
| Telemetry.DocumentedLine | main.go:69 | the documented line 133, 0.65, 0.43 (bar-separated) yields value 133 whenever its float fields parse |
| GrpcWait.Step | main.go:130-147 | a timeout never changes the state; the loop is left only by reading a pending `connected` value, keeping the handle; it blocks only on a second successful dial while a value is pending |
| GrpcWait.RunAppend | main.go:129-148 | running the loop over two traces is running it over the first, then the second |
| GrpcWait.TimeoutsIgnored | main.go:135-136 | removing every timeout from a trace does not change where the loop ends |
| GrpcWait.LastDialHandle | main.go:137-145 | while the loop is still waiting, every tick has been one dial, `grpcConnection` holds the last dial's handle if it succeeded and nil if it failed or none happened, and a value waits in `connected` exactly when some dial succeeded |
| GrpcWait.NoSuccessKeepsWaiting | main.go:137-142 | without a successful dial the loop keeps waiting; each retry is a dial, and after one the handle is nil |
| GrpcWait.ExitNeedsSuccess | main.go:129-148 | the loop as written is never left or blocked unless some dial succeeded |
| GrpcWait.PromptReceiveExits | main.go:131-146 | when `connected` is read right after the first successful dial, the loop is left with that dial's handle |
| GrpcWait.NilHandleAfterExit | main.go:137-145 | as written, the trace success, failure, read leaves the loop with a nil handle |
| GrpcWait.SecondSuccessBlocks | main.go:145 | as written, two successful dials before the read block for ever |
| GrpcWait.StepFixed | main.go:129-148 | corrected loop: only a successful dial leaves it, and it never blocks |
| GrpcWait.FixedExitsAtFirstSuccess | main.go:129-148 | the corrected loop is left at the first successful dial with that dial's handle, whatever follows |
| GrpcWait.FixedExitsIffSuccess | main.go:129-148 | the corrected loop is left if and only if some dial succeeds, and it then holds a connection |
| GrpcWait.FixedNeverStuck | main.go:145 | the corrected loop never blocks |
| GrpcWait.AgreeOnPromptReceive | main.go:129-148 | when `connected` is read right after the first success, the two loops end alike |
| GrpcWait.Connect | main.go:117-149 | with no address nothing is dialled and the handle is nil; otherwise the loop as written is neither left nor blocked before a dial succeeds, keeps nil until then, and while waiting holds the last dial's handle |
| GrpcWait.ConnectFixed | main.go:117-149 | corrected loop: with no address the handle is nil; otherwise it is left exactly when a dial succeeds, holding a connection, and it never blocks |
| Pipeline.Handle | main.go:166-186 | a line ends as a conversion failure, keeping its error, exactly when it does not convert; a converted line fails to send exactly when the sink errs; it is confirmed exactly when the echoed hash equals the request's, and that hash then decodes to the SHA-1 of this timestamp and line |
| Pipeline.OutcomesAt | main.go:165-186 | each line's outcome depends on that line alone, in line order |
| Pipeline.ScanLoop | main.go:165-187 | no failure stops the loop: it yields the outcomes of all lines, one per line in order, and sends the requests of exactly the lines that convert, in order |
| Pipeline.SentCount | main.go:167-171 | every line is either sent or rejected before sending |
| Pipeline.SentAppend | main.go:165-187 | the requests sent for two batches of lines are those of the first followed by those of the second |

## Left out

- Configuration from environment variables and flags (`init`, main.go:40-67) is process set-up. It also refers to a field, `config.socket`, that the configuration struct does not declare.
- `strconv.ParseFloat(.., 32)` and the `float32` conversion are floating-point parsing. They are the parameter `parseFloat: Bytes -> Option<F>`, and the value type `F` is never inspected.
- The internals of SHA-1 are the parameter `sha1`, which returns 20 bytes.
- `time.Now().UTC().String()` reads the clock. It is the parameter `timetext`.
- Dialling gRPC, calling `SendTelemetry`, opening and scanning the serial port, `os.Exit`, logging and signal handling are I/O. A dial's outcome and the sink's reply are inputs of the model.
- The goroutine, real tickers and the scheduler's random choice among ready `select` cases are concurrency. They are the event trace.
- Sending through a nil connection is not modelled. This is what happens when the address is empty, or after the nil-handle exit under Findings.
- The line splitting done by `bufio.Scanner` is I/O. The model starts from the sequence of scanned lines.
- GoStrings.Split: its own contract gives only `|parts| >= 1`. What the fields are is stated by SplitAtLeftmost and SplitWithoutSeparator for any separator. For a one-byte separator, JoinSplit, SplitPiecesFree and SplitJoinSingle also pin them down; for longer separators those three alone do not, because occurrences can overlap.
- GoStrings.Split: the empty separator, which Go splits into UTF-8 sequences, is excluded by `requires |sep| > 0`. The only call passes `"|"`.
- Telemetry.ConstructTelemetry: inherits `requires |sep| > 0` from `Split`, for the same reason.
- StrConv.Atoi: Go's distinct syntax and range errors are merged into one `None`, because the caller only tests the error against nil.

## Findings

| source | as written | input that shows it | evidently intended | confidence | as-written member | corrected member |
|---|---|---|---|---|---|---|
| main.go:137-145 | A successful dial sends `true` into `connected` and goes round the `select` again. If the retry ticker is picked before `connected` and the next dial fails, `grpcConnection` is overwritten with nil and the loop then exits with it. | events: dial succeeds, dial fails, `connected` read | leave the loop with the first successful connection | low: needs the retry ticker to be ready when the `select` runs again; not executed | GrpcWait.NilHandleAfterExit | GrpcWait.FixedExitsAtFirstSuccess |
| main.go:145 | A second successful dial before `connected` is read sends into the full one-slot buffer. Nothing else reads it, so `main` blocks for ever. | events: dial succeeds, dial succeeds | never dial again after a success | low: same race as above; not executed | GrpcWait.SecondSuccessBlocks | GrpcWait.FixedNeverStuck |
