# AVR645 serial-to-TCP bridge, modelled in Dafny

The AVR645 component is an ESPHome component. It sits between the serial port of an AVR645 receiver (a UART) and any number of TCP clients. Each cycle of its `loop()` does five things:

- It accepts a new client.
- It reads every byte the UART has delivered. Each byte is appended to a ring buffer and fed to a seven-state parser. The parser recognises the receiver's `MPSEND` display frames and publishes the two 14-character text fields and the volume reading.
- It flushes the ring buffer to every connected client, as two `iovec` segments per client.
- It reads what the clients sent into one shared scratch vector. Whenever that vector holds exactly four bytes, it sends a 14-byte `PCSEND` command frame with an XOR checksum to the UART.
- It drops the clients that have gone.

The project has these modules:

- `Common`: `byte`, `Option` and `Min`.
- `Text`: `print_`, the C-string view of a field buffer, and `trim_`.
- `Volume`: `parse_volume_`.
- `Command`: the `send_info` frame and the shared scratch of `write()`.
- `Ring`:
  - `buf_index` and `buf_ahead`;
  - the configured buffer size;
  - the two-segment window of `flush()`;
  - the per-client cursor bookkeeping;
  - the tail clamp of `read()`;
  - `cleanup()`.
- `Parser`:
  - `process_byte_` as a pure step function `Step`, with `Run` over byte sequences;
  - the class `FrameParser`, whose fields are the parser's fields and two 15-character arrays;
  - `FrameParser.ProcessByte` is proved to implement `Step`.
- `Bridge`:
  - the class `AVR645`, with the ring storage as an array, the head, the tail, the client list and the scratch;
  - its methods `Accept`, `Read`, `Flush`, `Write`, `Cleanup` and `Loop`.

  Each method is proved against the pure functions of the other modules. A ghost `stream` records every byte the UART has delivered. The class invariant says that the ring storage holds the last `size` bytes of that stream, each at its slot.

I/O becomes parameters and results:

- The UART input is the byte sequence handed to `Read`.
- The published frames are `Read`'s result.
- The `PCSEND` frames written to the UART are `Write`'s result.
- The outcome of `accept`, `writev` and `read` on each socket is an argument (`Incoming`, `Ring.WriteOutcome`, `Command.ReadOutcome`).
- The bytes each client is offered are `Flush`'s result.

## Model

| member | source | states |
|---|---|---|
| Text.Print | components/avr645/avr645.h:359 | the result is always printable ASCII; it equals the byte exactly when the byte is in 32..126, and is a space otherwise |
| Text.Render | components/avr645/avr645.h:141-162 | a field written through `print_` has one character per byte, each the printable rendering of its byte, and never contains a NUL |
| Text.CString | components/avr645/avr645.h:166-167 | the string built from a char buffer is its longest NUL-free prefix: it stops at the first NUL, or at the end when there is none |
| Text.CStringOfTerminated | components/avr645/avr645.h:143-145 | a NUL-free text followed by a NUL reads back as exactly that text, whatever follows the NUL |
| Text.Lead | components/avr645/avr645.h:361 | the index of the first non-space, or the length when all are spaces; everything before it is a space |
| Text.End | components/avr645/avr645.h:362 | one past the last non-space; everything from it on is a space |
| Text.Trim | components/avr645/avr645.h:360-363 | the result is a contiguous slice of the input; only spaces are cut on either side; it neither starts nor ends with a space; it is empty exactly when the input is all spaces |
| Text.TrimIdempotent | components/avr645/avr645.h:360-363 | trimming twice is trimming once |
| Volume.FindVol | components/avr645/avr645.h:187-188 | `find("VOL", from)` returns the first occurrence at or after `from`; when it returns nothing, no occurrence exists |
| Volume.SkipSpaces | components/avr645/avr645.h:191 | the spaces loop stops at the first non-space, or at the end |
| Volume.DigitEnd | components/avr645/avr645.h:202-205 | the digit loop stops at the end of the maximal run of digits |
| Volume.ParseVolume | components/avr645/avr645.h:185-216 | a line with no "VOL" has no reading; every other line is marked (`MarkFirstVol`) and then covered by `ParseAt` (a digit follows) or `NoDigitNoReading` (none does) |
| Volume.DecimalOfDigits | components/avr645/avr645.h:201-205 | accumulating `value * 10 + digit` over the decimal spelling of n gives n |
| Volume.ParseAt | components/avr645/avr645.h:187-207 | for every line whose first "VOL", at any index, is followed by spaces, an optional '-' and a maximal digit run, the reading is the decimal value of that run, negated after '-' |
| Volume.FindFirstVol | components/avr645/avr645.h:187 | `find("VOL")` returns the index of the first "VOL", wherever it is |
| Volume.MarkFirstVol | components/avr645/avr645.h:187-197 | every line whose first "VOL" is at p has the padding and the sign the spaces loop and the '-' check find after it |
| Volume.NoDigitNoReading | components/avr645/avr645.h:187-199 | for every line whose first "VOL", at any index, is followed by spaces, an optional '-' and then the end of the line or a non-digit, there is no reading |
| Volume.VolumeReading | components/avr645/avr645.h:185-216 | for every text without "VOL" in front, n, padding, sign, and suffix not starting with a digit, the text, "VOL", the spaces, the sign, the digits of n and the suffix parse to n or -n; neither the text in front nor the "dB" check changes the value |
| Volume.NoVolBefore | components/avr645/avr645.h:187 | text without "VOL" followed by "VOL" has its first "VOL" right after the text, since "VOL" does not overlap itself |
| Volume.ExampleWithUnit | components/avr645/avr645.h:186 | "VOL -43dB" reads as -43 |
| Volume.ExampleWithoutUnit | components/avr645/avr645.h:214-215 | "VOL 12", with no unit, reads as 12 |
| Volume.ExampleNoDigit | components/avr645/avr645.h:199 | "VOLUME HIGH" has a marker but no number, so it gives no reading |
| Volume.ExampleAfterText | components/avr645/avr645.h:187 | "MAIN VOL 7" reads as 7: the marker need not start the line |
| Command.InfoFrame | components/avr645/avr645.h:87-98 | the frame is 14 bytes: "PCSEND", 0x02, 0x04, the four payload bytes, then the checksum bytes a^c and b^d |
| Command.CheckBytes | components/avr645/avr645.h:93-94 | the two checksum bytes are the XOR of the two high payload bytes and the XOR of the two low ones |
| Command.Absorb | components/avr645/avr645.h:327-349 | one client's turn on the shared scratch: a command is produced exactly when a chunk makes the scratch exactly 4 bytes; the command is the info frame of those 4 bytes and the scratch is then emptied; a close empties the scratch and marks the client; otherwise the scratch is the old one plus the chunk, dropped when over 32 bytes; the scratch never exceeds 32 bytes |
| Command.ExampleCommand | components/avr645/avr645.h:87-95 | bytes 01 02 03 04 give the frame "PCSEND" 02 04 01 02 03 04 02 06 |
| Command.ExampleGarbage | components/avr645/avr645.h:347-348 | a 33-byte chunk on an empty scratch is discarded with no command |
| Command.OverfullScratchIsStuck | components/avr645/avr645.h:333-340 | once the scratch holds more than 4 bytes, further chunks that stay within 32 bytes only accumulate and produce no command |
| Command.SharedScratchJoinsClients | components/avr645/avr645.h:325-340 | two bytes from one client and two from the next form one command built from both |
| Ring.BufIndex | components/avr645/avr645.h:357 | `pos & (size - 1)` is a slot below size |
| Ring.BufAhead | components/avr645/avr645.h:358 | `buf_ahead(pos)` plus the slot of pos is exactly size |
| Ring.MaskIsModulo | components/avr645/avr645.h:357 | for a power-of-two size, the masked index is pos mod size |
| Ring.AheadIsDistanceToEnd | components/avr645/avr645.h:358 | for a power-of-two size, `buf_ahead` is the distance from pos's slot to the end of storage |
| Ring.MaskIsModuloEverywhere | components/avr645/avr645.h:357 | for a power-of-two size, the mask and the remainder agree at every position |
| Ring.CheckedBufferSize | components/avr645/avr645.h:45 | a configured size is accepted exactly when it is a power of two; an accepted size makes the mask the remainder |
| Ring.DefaultBufferSizeIsValid | components/avr645/avr645.h:370 | the default size 1024 is accepted |
| Ring.MaskAliasesWithoutPow2 | components/avr645/avr645.h:45 | with size 3, positions 0 and 1 both map to slot 0 |
| Ring.Segments | components/avr645/avr645.h:311-315 | the two iovec lengths add up to the client's lag; the first never runs past the end of storage; a second segment exists only when the first reaches that end |
| Ring.SecondSegmentFits | components/avr645/avr645.h:313-315 | the second segment stays within the bytes before the first segment's start exactly when the lag is at most the size |
| Ring.LaggingClientOverrunsStorage | components/avr645/avr645.h:313-316 | a client more than `size + buf_ahead(pos)` behind gets a second segment longer than the storage |
| Ring.LaggingClientExample | components/avr645/avr645.h:313-316 | with 1024 bytes of storage, a client at 0 with the head at 2049 gets segments of 1024 and 1025 bytes |
| Ring.StoreKeepsWindow | components/avr645/avr645.h:256-257 | writing byte c at slot head mod size keeps the storage holding the last `size` bytes of the stream extended by c |
| Ring.ClampTail | components/avr645/avr645.h:259-261 | after n bytes the tail never moves back nor past the head; after any append (n > 0) it is within 128 bytes of the head, and with no byte it stays within 128 if it was |
| Ring.WindowReadsStream | components/avr645/avr645.h:311-316 | for a client within `size` bytes, the first segment followed by the second is exactly the unsent part of the stream |
| Ring.Written | components/avr645/avr645.h:316 | `writev` returns -1 or at most the requested length |
| Ring.Offer | components/avr645/avr645.h:311-316 | a pending client is offered a non-empty window that completes the part of the stream it was already sent to the whole stream; a client that is gone or up to date is offered nothing |
| Ring.Serve | components/avr645/avr645.h:310-318 | a client that is gone or at the head is unchanged; otherwise its cursor advances from its own position by exactly what `writev` accepted and stays put on -1 or 0, and the client is marked gone exactly on a zero-byte write or ECONNRESET |
| Ring.ServeFromOwnCursor | components/avr645/avr645.h:311-318 | a client 500 bytes behind is offered all 500 bytes; a 10-byte write moves its cursor to 10, EAGAIN leaves it at 0, and a reset marks it gone at 0 |
| Ring.FlushAll | components/avr645/avr645.h:309-320 | after `flush()` every client is its own served state, and every cursor is at or behind the head |
| Ring.TailUpTo | components/avr645/avr645.h:308-320 | the recomputed tail is at or behind the head |
| Ring.SkipLagging | components/avr645/avr645.h:313-316 | the corrected lag bound: a client more than half the buffer behind is moved forward to exactly half the buffer behind the head; a closer one keeps its cursor |
| Ring.SkippedWindowReadsStream | components/avr645/avr645.h:311-316 | with the corrected lag bound, for every lag, the second segment never reaches the first one's slot and the two segments are exactly the stream from the skipped cursor to the head |
| Ring.TailIsLowestServed | components/avr645/avr645.h:308-320 | the tail is no greater than the cursor of any client written to, and equals one of those cursors unless it is the head |
| Ring.Connected | components/avr645/avr645.h:352-355 | cleanup keeps exactly the clients not marked disconnected |
| Ring.ConnectedKeepsOrder | components/avr645/avr645.h:352-355 | cleanup filters each part of the list independently, so order is preserved |
| Parser.Step | components/avr645/avr645.h:110-183 | the parser invariant is preserved (signature cursor below 6, field cursor below 14, finished fields NUL-terminated), and a frame is published exactly on 0xF2 while waiting for it |
| Parser.Run | components/avr645/avr645.h:250-265 | feeding bytes one by one preserves the parser invariant |
| Parser.RunAppend | components/avr645/avr645.h:250-265 | feeding xs then ys is feeding xs + ys, and the frames published concatenate |
| Parser.SigPosIsMatchedSuffix | components/avr645/avr645.h:115-124 | starting from cursor 0, the signature cursor is always the length of a prefix of "MPSEND" that ends the input |
| Parser.SigPosStep | components/avr645/avr645.h:115-124 | the cursor advances only on the expected letter and otherwise drops to 0; leaving the signature state requires the last letter at cursor 5 |
| Parser.SignatureOnlyAfterMpsend | components/avr645/avr645.h:115-121 | the parser leaves signature matching only when the last six bytes read are exactly "MPSEND" |
| Parser.SignaturePrefix | components/avr645/avr645.h:115-121 | every proper prefix of "MPSEND" moves the cursor to its length, with no other change |
| Parser.SignatureRecognised | components/avr645/avr645.h:111-121 | "MPSEND" from rest moves to waiting for the meta byte, with the cursor reset |
| Parser.NonStartersIgnored | components/avr645/avr645.h:122-124 | bytes other than 'M' leave a parser at rest unchanged |
| Parser.DoubledLetterCancels | components/avr645/avr645.h:115-124 | "MM" leaves a parser at rest where it was |
| Parser.DoubledLetterNotRecognised | components/avr645/avr645.h:115-124 | "MMPSEND" is not recognised: the mismatching 'M' is not re-tested, so the parser stays at rest |
| Parser.UpperPrefix | components/avr645/avr645.h:141-147 | while the upper field is read, its first k characters are the renderings of the k bytes read, and the rest of the buffer is untouched |
| Parser.UpperField | components/avr645/avr645.h:141-147 | 14 bytes fill the upper buffer with their rendering plus a NUL, and the parser waits for 0xF1 |
| Parser.LowerPrefix | components/avr645/avr645.h:156-162 | the lower-field counterpart of UpperPrefix |
| Parser.LowerField | components/avr645/avr645.h:156-162 | 14 bytes fill the lower buffer with their rendering plus a NUL, and the parser waits for 0xF2 |
| Parser.FrameHeader | components/avr645/avr645.h:115-139 | "MPSEND", 0x32, 0xF0 from rest start reading the upper field at position 0 |
| Parser.FrameFields | components/avr645/avr645.h:141-162 | 14 bytes, 0xF1 and 14 more bytes fill both buffers and wait for 0xF2 |
| Parser.FrameBody | components/avr645/avr645.h:115-162 | header and both fields from rest leave both buffers rendered and terminated, waiting for 0xF2 |
| Parser.FrameEndPublishes | components/avr645/avr645.h:164-181 | 0xF2 in the last wait state publishes the trimmed buffers and returns to signature matching |
| Parser.EndsFrame | components/avr645/avr645.h:164-181 | a quiet run into the last wait state followed by 0xF2 publishes exactly one frame |
| Parser.PublishRendered | components/avr645/avr645.h:166-177 | the published frame carries the trimmed renderings of the two fields and the volume read from the trimmed lower text |
| Parser.FrameRun | components/avr645/avr645.h:110-183 | a complete frame from rest publishes exactly one frame, built from the buffer contents |
| Parser.CompleteFrame | components/avr645/avr645.h:110-183 | a complete frame ("MPSEND", 0x32, 0xF0, 14 bytes, 0xF1, 14 bytes, 0xF2) from rest publishes exactly one frame: the trimmed printable renderings of the two fields and the volume parsed from the lower one; the parser is back at rest |
| Parser.WaitStatesIgnoreOtherBytes | components/avr645/avr645.h:127-181 | each wait state ignores every byte except the one it awaits (0x32, 0xF0, 0xF1, 0xF2), and that byte always moves it on |
| Parser.FrameParser.constructor | components/avr645/avr645.h:33-37 | a new parser is at rest: waiting for the signature with both cursors at 0 |
| Parser.FrameParser.ProcessByte | components/avr645/avr645.h:110-183 | the in-place update of the fields and the two arrays is exactly one step of the parser, and it returns the frame that step publishes |
| Parser.FrameParser.PutUpper | components/avr645/avr645.h:141-147 | writing into the upper array in place is exactly the parser step of the upper-field state |
| Parser.FrameParser.PutLower | components/avr645/avr645.h:156-162 | writing into the lower array in place is exactly the parser step of the lower-field state |
| Bridge.Intake | components/avr645/avr645.h:327-349 | after the turns of the first n clients, the client list has the same length, ids and cursors, and the scratch stays within 32 bytes |
| Bridge.Visit | components/avr645/avr645.h:327-349 | one client's turn keeps the list length, ids, cursors and the 32-byte scratch bound |
| Bridge.IntakeLeavesLaterClients | components/avr645/avr645.h:327 | clients whose turn has not come are untouched |
| Bridge.IntakeMarksCloses | components/avr645/avr645.h:342-343 | a client is marked gone after its turn exactly when it already was or its read returned 0 |
| Bridge.IntakeSendsFrames | components/avr645/avr645.h:336-339 | at most one command per client turn, and every command is a 14-byte frame starting "PCSEND" |
| Bridge.DisconnectedClientsSendNothing | components/avr645/avr645.h:328 | when every client is already gone, `write()` changes nothing and sends nothing |
| Bridge.AVR645.constructor | components/avr645/avr645.h:370-375 | a bridge with an accepted buffer size starts with head, tail, clients, scratch and stream all empty and the parser at rest |
| Bridge.AVR645.Accept | components/avr645/avr645.h:218-248 | a new connection is appended as a connected client at the current head, identified by its address or "unknown"; with no connection nothing changes |
| Bridge.AVR645.Read | components/avr645/avr645.h:250-266 | every input byte is appended to the stream and the ring storage; the tail is the clamp of the old one; the parser state and the frames returned are those of running the parser over the input; the clients are untouched |
| Bridge.AVR645.Feed | components/avr645/avr645.h:251-265 | one iteration of the read loop extends the stream, the head, the clamped tail and the parser run over the first i input bytes to the first i + 1 |
| Bridge.AVR645.ReadByte | components/avr645/avr645.h:252-264 | one byte goes into the ring as Push states, and the parser moves exactly as one step of the parser and returns that step's frame |
| Bridge.AVR645.Push | components/avr645/avr645.h:256-261 | one byte is stored at its slot and appended to the stream, and the tail is moved to 64 behind the head when it fell more than 128 behind |
| Bridge.AVR645.Window | components/avr645/avr645.h:311-316 | for a cursor within one buffer of the head, the two segments read from storage are exactly the stream from the cursor to the head |
| Bridge.AVR645.Flush | components/avr645/avr645.h:307-321 | with every connected client within one buffer of the head, every client becomes its served state; the tail is the lowest cursor written to (or the head); each client is offered exactly its unsent stream; head, stream and scratch are unchanged |
| Bridge.AVR645.Turn | components/avr645/avr645.h:310-319 | one client of `flush()` is served from its own cursor, is offered its unsent stream, and the tail is lowered to its new cursor when it was written to |
| Bridge.AVR645.ServeClient | components/avr645/avr645.h:310-318 | a pending client is offered the stream from its own cursor to the head, read from storage, and ends in its served state |
| Bridge.AVR645.Write | components/avr645/avr645.h:323-350 | the clients, the scratch and the commands sent are those of the turns of all clients in order; the ring is untouched |
| Bridge.AVR645.Attend | components/avr645/avr645.h:327-349 | one client's turn in place is one step of Intake |
| Bridge.AVR645.Take | components/avr645/avr645.h:330-348 | the scratch update, the command and the close flag are those of Command.Absorb |
| Bridge.AVR645.Cleanup | components/avr645/avr645.h:352-355 | the client list becomes the connected clients in order; none left is disconnected |
| Bridge.AVR645.Loop | components/avr645/avr645.h:73-79 | when the input leaves every connected client within one buffer of the head, one cycle keeps the invariant, appends the input to the stream, returns the frames the parser publishes over it, and leaves no disconnected client |

## Left out

- `size_t` wrap-around of the head, the tail and client positions after 2^32 (or 2^64) bytes is not modelled. Positions are unbounded naturals.
- Volume.ParseVolume: the `int` accumulator of `parse_volume_` can overflow on long digit runs; here the value is unbounded. Its conversion to `float` is not modelled either.
- The `volume_ != nullptr` check: every published frame carries the parsed volume. Whether a volume sensor is configured is not modelled.
- Publication to the text and volume sensors becomes the frames `Read` returns.
- Sockets (`accept`, `writev`, `read`, `errno`, non-blocking mode) become the `Incoming`, `WriteOutcome` and `ReadOutcome` arguments.
- `writev`'s partial write is modelled as `Min(room, requested)`.
- Command.Absorb: a chunk may have any length. The source reads at most 128 bytes per call, so its chunks are never longer. An empty chunk is also allowed, although the source treats a read of 0 bytes as a close. Such a chunk changes nothing, since the scratch never holds exactly four bytes at the start of a turn.
- The UART calls `available`, `read_byte`, `write_array` and `flush` become `Read`'s input and `Write`'s result.
- `inet_ntop` and the address families become an optional address string.
- `setup` (socket creation, bind, listen, storage allocation), `on_shutdown`, `get_setup_priority`, the setters, the static `instance` and all logging are not modelled.
- `check_header_` and `parse_mpsend_` are not modelled: nothing calls them.
- The configuration schema in `avr645.py` is not part of this model.
- The indeterminate initial contents of `upper_buf_`, `lower_buf_` and `buf_` are modelled as NUL characters and zero bytes. No contract depends on them.
- Bridge.AVR645.Flush: requires every connected client to be within one buffer of the head. The component does not enforce this (second finding below): beyond it, `flush()` sends overwritten bytes and, further still, reads past the storage, which the model does not describe.
- Bridge.AVR645.Loop: requires the input to leave every connected client within one buffer of the head, for the same reason as `Flush`.
- Bridge.AVR645.Loop: its contract states only the invariant, the stream, the frames and that no disconnected client remains. Each phase's full effect is stated by the method it calls.

## Findings

| source | as written | input that shows it | evidently intended | confidence | as-written member | corrected member |
|---|---|---|---|---|---|---|
| components/avr645/avr645.h:45 | `set_buffer_size` accepts any size, but `buf_index` masks with `size - 1`, which is a remainder only for powers of two | size 3: stream positions 0 and 1 both land in slot 0, so an unsent byte is overwritten and slot 1 is never used | only power-of-two sizes are accepted | not executed | Ring.MaskAliasesWithoutPow2 | Ring.CheckedBufferSize |
| components/avr645/avr645.h:259-261, 313-316 | the 128/64 clamp in `read()` moves only `buf_tail_`, which nothing else reads; a client's cursor may fall arbitrarily far behind, and `flush()` builds its second `iovec` from the full lag | 1024-byte storage, a client at position 0, head at 2049: the second segment is 1025 bytes long and runs past the end of `buf_`; any lag over the size also re-sends overwritten bytes | a client more than half the buffer behind has its cursor moved to half the buffer behind the head, so that every window fits the storage and is exactly the stream from that cursor | not executed | Ring.LaggingClientOverrunsStorage | Ring.SkippedWindowReadsStream |
