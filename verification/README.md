# RepDroid G-code indexer, modelled in Dafny

RepDroid indexes a G-code file in a single streaming pass. The Dafny project models the core of that pass and proves properties of the model.

- **Reading.** A block reader pulls the file through a 512 KiB buffer (`GCodeParser.fetchBlock`).
- **Line cutting.** `parseLine` cuts lines of at most 128 bytes. It drops carriage returns and skips leading spaces.
- **Decoding.** Lines starting with `G` or `g` go to the G-line decoder (`GCommand`). The decoder:
  - appends a space sentinel to the line;
  - reads the opcode with the integer scanner (`Command.parseIntFromCharBuf`);
  - checks the opcode against the supported set;
  - splits the arguments into whitespace-delimited tokens, whose values come from the float scanner (`Command.parseFloatFromCharBuf`);
  - answers per-letter queries through a capability table.
- **Layering.** Every G0/G1 line whose Z differs from the last Z seen opens a new layer. The layer is appended to a doubly linked chain of `LayerIndex` nodes at the file offset where the line starts.
- **Finishing.** `indexFile` repeats `parseLine` until it refuses a line or the file ends. It then logs the chain.

How the Java is represented:

- **State.** The Java keeps all state in static fields. The model threads that state explicitly: a `Reader` for the file channel and buffer, a `Decoder` for the fields of `Command`/`GCommand`, and an `Indexer` for the reader, the decoder, the layer chain and `lastZ`.
- **Files and bytes.** A file is a `seq<Byte>`. A channel read is a pure function of the file and the channel position.
- **Numbers.** They are exact: `int` for the opcode and `real` for argument values.
- **The layer chain.** It is a sequence of nodes. A `next`/`prev` link is the position of the node it points to.

Modules, one per file:

| file | module | models |
|---|---|---|
| results.dfy | `Results` | `Option`, `Result` |
| ascii.dfy | `Ascii` | bytes, digit classes, decimal values, decimal spelling |
| command.dfy | `Command` | the two number scanners and their closed forms |
| gcommand.dfy | `GCommand` | `setData`, `validCode`, `parseArguments`, `getX`…`getP`, `explain` |
| layer_index.dfy | `LayerIndex` | the `LayerIndex` node and chain, and the closing log walk |
| block_reader.dfy | `BlockReader` | `openFile`'s first read, `fetchBlock`, the byte fetch at the head of the line loop |
| gcode_parser.dfy | `GCodeParser` | `parseLine`, `indexFile` |

Behaviour of the code worth knowing:

- **`indexFile` resets nothing but the unused `index` list.** `lastZ`, the root and `currentLayer` are static and nothing in the Java resets them (GCodeParser.java:20-25, 186-202). `IndexFile` takes the chain and `lastZ` it is given. `openFile` does not reset the read position either (see `Open` under "Left out").
- **`setData` does not clear the arguments.** It only clears `hasArgs` (GCommand.java:23-25). The previous line's values stay in the state, but they are never read: every accessor re-parses first. `SetData` keeps them, and `FreshLineAnswers` shows they cannot be observed.
- **The text for G20 reads "G22 - Use inches"** (GCommand.java:237-238). The model returns exactly that text.

## Model

| member | source | states |
|---|---|---|
| Command.IntLoop | src/nl/cyberwizzard/repdroid/Command.java:19-27 | Run from position i with the accumulator equal to ten times the value of the digits so far, the digit loop ends at the closed form: the value of all the digits, or ten times the value of the leading digits when a non-digit stops it |
| Command.ParseInt | src/nl/cyberwizzard/repdroid/Command.java:17-28 | An empty range gives -1. A non-empty range never gives a negative value. An all-digit range gives its ordinary decimal value. When the first non-digit is at k, the result is 10 × the value of the digits before k, which is 0 when k = start |
| Command.FloatLoop | src/nl/cyberwizzard/repdroid/Command.java:32-48 | Run from position i with the accumulator, divider and fraction flag that match the prefix, the digit-and-dot loop ends at the closed form: mantissa / 10^(digits after the first dot), times 10 when it stops early or on a trailing dot |
| Command.ParseFloat | src/nl/cyberwizzard/repdroid/Command.java:30-49 | An empty range gives -1.0. Any other range gives the closed form of its scan, which is never negative |
| Command.ParseFloatDigits | src/nl/cyberwizzard/repdroid/Command.java:32-48 | A range of digits scans to its decimal value |
| Command.ParseFloatDecimal | src/nl/cyberwizzard/repdroid/Command.java:32-48 | "a.b", where a is digits and b is at least one digit, scans to a + b / 10^\|b\| |
| Command.DecimalExamples | src/nl/cyberwizzard/repdroid/Command.java:32-48 | "1.5" scans to 1.5 |
| Command.LeadingDotExample | src/nl/cyberwizzard/repdroid/Command.java:32-48 | ".5" scans to 0.5: a dot with no digits before it is a zero integer part |
| Command.ParseFloatTrailingDot | src/nl/cyberwizzard/repdroid/Command.java:39-45 | A dot on the last byte leaves the extra factor of ten: "a." scans to 10 × a |
| Command.ParseFloatLaterDot | src/nl/cyberwizzard/repdroid/Command.java:39-42 | A second dot only re-sets the fraction flag: "a.b" scans like "ab" when a already holds a dot |
| Command.ParseFloatTruncated | src/nl/cyberwizzard/repdroid/Command.java:35-38 | A scan stopped by a byte that is neither digit nor dot, right after a digit, returns 10 × the scan of the valid prefix, with no error |
| Command.TruncationExamples | src/nl/cyberwizzard/repdroid/Command.java:17-49 | "1." scans to 10.0, "12x" to 120, "x" to 0, and an empty range to -1 |
| Ascii.DecimalDigits | src/nl/cyberwizzard/repdroid/GCommand.java:279-280 | The decimal spelling used when an opcode is printed is made of digits, has no leading zero, and reads back as the number |
| GCommand.SetData | src/nl/cyberwizzard/repdroid/GCommand.java:21-50 | A line longer than 127 bytes is rejected as too long. A non-empty line is malformed exactly when the byte after the command letter is not a digit. An empty line has no opcode. On success the buffer is the line plus one space, `hasArgs` is cleared, and the opcode is the decimal value of the maximal digit run after the letter |
| GCommand.AfterSetData | src/nl/cyberwizzard/repdroid/GCommand.java:23-33 | A rejected line leaves opcode -1 and `hasArgs` cleared. A rejection after the copy leaves the line plus space in the buffer |
| GCommand.RejectedRefusesAll | src/nl/cyberwizzard/repdroid/GCommand.java:21-78 | After a rejected line of at most 128 bytes every accessor answers ArgumentInvalid for opcode -1 |
| GCommand.ValidCode | src/nl/cyberwizzard/repdroid/GCommand.java:288-303 | The supported opcodes are exactly those that some letter may be asked for, plus the four mode switches G20, G21, G90 and G91, which take no argument |
| GCommand.Legal | src/nl/cyberwizzard/repdroid/GCommand.java:61-205 | A move (G0/G1) may be asked for X, Y, Z, E and F; homing (G28) for X, Y and Z; a position set (G92) for X, Y, Z and E; a dwell (G4) only for P; any other opcode for nothing |
| GCommand.LegalOnlyForValid | src/nl/cyberwizzard/repdroid/GCommand.java:288-303 | Every opcode that the accessors' capability switches let take some letter is in the supported set |
| GCommand.Store | src/nl/cyberwizzard/repdroid/GCommand.java:345-356 | Storing under a letter sets exactly that argument, in either case. G/g and unknown letters change nothing |
| GCommand.ParseArguments | src/nl/cyberwizzard/repdroid/GCommand.java:310-384 | On a buffer ending in white space, every letter holds the value of the last token that starts with it, and a letter no token starts with is absent |
| GCommand.ArgLoopMeaning | src/nl/cyberwizzard/repdroid/GCommand.java:322-364 | On a buffer ending in white space, the two-state loop ends between tokens holding the token reading of the whole buffer |
| GCommand.ParseArgumentsMeaning | src/nl/cyberwizzard/repdroid/GCommand.java:310-384 | On a buffer ending in white space, the tokenizer finishes between tokens, so the tail block never runs. Each letter then holds the value of the last token that starts with it (0 for a bare letter, else the float scan of the rest), and a letter no token starts with is absent |
| GCommand.PresenceMeaning | src/nl/cyberwizzard/repdroid/GCommand.java:322-361 | A letter is present exactly when some whitespace-delimited token starts with it in either case, with no comment handling. Its value is the one of the last such token |
| GCommand.ArgLoopKeeps | src/nl/cyberwizzard/repdroid/GCommand.java:322-364 | Every iteration of the two-state loop keeps the link between the loop state and the token reading of the bytes read so far |
| GCommand.LastStart | src/nl/cyberwizzard/repdroid/GCommand.java:337-351 | Finds the last token before n that starts with the letter: it starts a token, it has the letter, and no later token before n has it |
| GCommand.Parsed | src/nl/cyberwizzard/repdroid/GCommand.java:63 | The arguments are parsed only when `hasArgs` is false. Afterwards `hasArgs` holds, and buffer and opcode are untouched |
| GCommand.Get | src/nl/cyberwizzard/repdroid/GCommand.java:61-206 | The capability table (X, Y, Z for 0, 1, 28, 92; E for 0, 1, 92; F for 0, 1; P for 4) is checked before presence, so ArgumentInvalid wins over ArgumentNotFound. A legal letter's answer is the token reading of the line: its value, or ArgumentNotFound when absent |
| GCommand.FreshLineAnswers | src/nl/cyberwizzard/repdroid/GCommand.java:23-63 | After `setData`, every accessor's answer depends only on the new line, never on arguments left from earlier lines |
| GCommand.ParsesOnce | src/nl/cyberwizzard/repdroid/GCommand.java:63 | The state an accessor leaves answers later queries without parsing again |
| GCommand.Listed | src/nl/cyberwizzard/repdroid/GCommand.java:213-277 | The coordinates of a move or position text are exactly the present letters among those asked for, with their values, in X, Y, Z, E order |
| GCommand.Marks | src/nl/cyberwizzard/repdroid/GCommand.java:242-254 | The homing marks are one letter and one ';' per listed axis, in order |
| GCommand.IntText | src/nl/cyberwizzard/repdroid/GCommand.java:280 | An opcode is printed with a leading '-' exactly when it is negative |
| GCommand.IntTextRoundTrip | src/nl/cyberwizzard/repdroid/GCommand.java:280 | The printed opcode reads back as the same integer |
| GCommand.Explain | src/nl/cyberwizzard/repdroid/GCommand.java:208-282 | `explain` keeps buffer and opcode, and keeps the decoder's arguments those of its buffer. G20 gives "G22 - Use inches", G21 "G21 - Use mm", G90 "G90 - Use absolute positioning" and G91 "G91 - Use relative positioning", without touching the decoder |
| GCommand.ExplainPositionMeaning | src/nl/cyberwizzard/repdroid/GCommand.java:260-277 | For a G92 line, the new position lists exactly the X, Y, Z and E tokens of the line with their last values, in X, Y, Z, E order |
| GCommand.ExplainFails | src/nl/cyberwizzard/repdroid/GCommand.java:235-236 | `explain` fails only for G4 without a P token, and then with ArgumentNotFound(P) |
| GCommand.ExplainUnknownIffInvalid | src/nl/cyberwizzard/repdroid/GCommand.java:279-303 | `explain` answers "Unknown opcode N" exactly for the opcodes `validCode` rejects, and N reads back as the opcode |
| GCommand.ExplainMoveMeaning | src/nl/cyberwizzard/repdroid/GCommand.java:211-234 | For a G0/G1 line, the move lists exactly the X, Y, Z and E tokens of the line with their last values, in X, Y, Z, E order, and the feed rate is the last F token's value |
| GCommand.ExplainHomeMeaning | src/nl/cyberwizzard/repdroid/GCommand.java:241-255 | For a G28 line the text is "G28 - Home " followed by "X;", "Y;", "Z;" for exactly the axes the line names, in that order |
| LayerIndex.RootOk | src/nl/cyberwizzard/repdroid/LayerIndex.java:4-7 | The fresh root node (layer 0, offset 0, no neighbours) forms a well-formed chain on its own |
| LayerIndex.Append | src/nl/cyberwizzard/repdroid/GCodeParser.java:131-138 | The new node is one layer above the old tail, starts at the given offset, and is linked both ways with the old tail. Every existing node keeps its layer and offset. A well-formed chain stays well-formed: links are mutual and layer numbers go 0, 1, 2, … |
| LayerIndex.LinksInverse | src/nl/cyberwizzard/repdroid/GCodeParser.java:132-136 | In a well-formed chain, `next` and `prev` are mutual inverses |
| LayerIndex.Logged | src/nl/cyberwizzard/repdroid/GCodeParser.java:197-201 | Walking `next` from node i logs every node from i up to, but not including, the tail, in order |
| LayerIndex.LoggedFromRoot | src/nl/cyberwizzard/repdroid/GCodeParser.java:197-201 | The closing walk logs one line per layer except the current one, with layer k as the k-th line |
| BlockReader.ReadChannel | src/nl/cyberwizzard/repdroid/GCodeParser.java:175 | A read returns -1 exactly when the channel is at the end. Otherwise it returns the next bytes of the file: a full 512 KiB block, or the remainder of the file |
| BlockReader.Open | src/nl/cyberwizzard/repdroid/GCodeParser.java:51-61 | The first read leaves a consistent reader at position 0, with count -1 exactly for an empty file |
| BlockReader.FetchBlock | src/nl/cyberwizzard/repdroid/GCodeParser.java:173-184 | `ptr` goes to 0 and `ptr_offset` grows by exactly 512*1024, whatever the read returned. The count is -1 exactly when the channel was at the end |
| BlockReader.Next | src/nl/cyberwizzard/repdroid/GCodeParser.java:97-103 | The byte handed out is the file byte at `ptr_offset + ptr`. The end of the file is reported exactly when that byte is the file's last, before the byte is used. Otherwise the reader stays consistent and its position moves up by one |
| BlockReader.Drain | src/nl/cyberwizzard/repdroid/GCodeParser.java:98-105 | Successive fetches hand out the file's bytes in order |
| GCodeParser.Start | src/nl/cyberwizzard/repdroid/GCodeParser.java:15-61 | On a fresh process, `openFile` leaves a consistent reader on the file at offset 0 and the chain holding only the root, which is current |
| GCodeParser.CleanMeaning | src/nl/cyberwizzard/repdroid/GCodeParser.java:106-109 | The kept line is the classified bytes with every CR removed and the leading spaces dropped. Embedded and trailing spaces are kept |
| GCodeParser.LineAt | src/nl/cyberwizzard/repdroid/GCodeParser.java:97-112 | A line uses at most 128 bytes, never holds CR or LF, is shorter than 128 bytes, and the next line starts after it |
| GCodeParser.ScanLine | src/nl/cyberwizzard/repdroid/GCodeParser.java:97-112 | The byte loop agrees with `LineAt`: an over-long line exactly when `LineAt` says so, otherwise the same line, with the reader where the next line starts or at the end |
| GCodeParser.ScanByte | src/nl/cyberwizzard/repdroid/GCodeParser.java:97-103 | The fetch at the head of an iteration, ending the loop without using the byte when the refill finds the end of the file, keeps the loop in agreement with `LineAt` |
| GCodeParser.ScanKept | src/nl/cyberwizzard/repdroid/GCodeParser.java:105-110 | The rest of the iteration (drop CR, stop at LF, skip a leading space, keep, refuse at 128 kept bytes) keeps the loop in agreement with `LineAt` |
| GCodeParser.LineCutAtWindow | src/nl/cyberwizzard/repdroid/GCodeParser.java:97 | 128 bytes without LF and with fewer than 128 kept end the line, and the next line starts right after them |
| GCodeParser.LastByteDropped | src/nl/cyberwizzard/repdroid/GCodeParser.java:100-104 | The last byte of a file is never added to a line: a short file without LF is one line without its last byte |
| GCodeParser.Classify | src/nl/cyberwizzard/repdroid/GCodeParser.java:114-165 | A line is accepted exactly when it is not a G-line, or is a well-formed G-line with a supported opcode. A new layer starts at the line's offset exactly for a G0/G1 line whose Z is present and differs from `lastZ`, and `lastZ` takes that Z. Other lines leave the chain and `lastZ` alone, and non-G lines change nothing |
| GCodeParser.ParseLine | src/nl/cyberwizzard/repdroid/GCodeParser.java:85-171 | Once the end was read, nothing happens and the answer is false. Otherwise the outcome is `LineAt` at the current position: an over-long line is refused, and any other line is classified as above, with its start offset as the new layer's offset. The reader resumes where the next line starts, and an accepted line strictly consumes input |
| GCodeParser.StepGrows | src/nl/cyberwizzard/repdroid/GCodeParser.java:91-141 | One line adds at most one node, at an offset no lower than where it started, below where the reader resumes, and at the start of a Z move |
| GCodeParser.Lines | src/nl/cyberwizzard/repdroid/GCodeParser.java:85-171 | The lines a pass accepts, in file order: each starts where the previous one's cut ends, is a line `LineAt` cuts there and is accepted; the list stops at the end of the file or at the first over-long or refused line |
| GCodeParser.Fold | src/nl/cyberwizzard/repdroid/GCodeParser.java:127-141 | Applying the layer bookkeeping line by line keeps the chain well-formed and adds at most one node per line |
| GCodeParser.StepFolds | src/nl/cyberwizzard/repdroid/GCodeParser.java:85-171 | One `parseLine` is one step of the fold: false exactly when no line is left to accept, with chain and `lastZ` unchanged; true consumes the first accepted line, leaving one fewer, and the fold of the rest from the new state ends where the whole fold did |
| GCodeParser.IndexLoop | src/nl/cyberwizzard/repdroid/GCodeParser.java:189-194 | The loop stops at the first refused line or the end of the file. Its chain and `lastZ` are exactly the layer bookkeeping folded over the accepted lines, and the count is the number of accepted lines. It only adds nodes, at strictly increasing offsets that each start a Z move |
| GCodeParser.IndexFile | src/nl/cyberwizzard/repdroid/GCodeParser.java:186-202 | Nothing is reset, and earlier nodes keep their layer and offset. The chain and `lastZ` are the fold over the accepted lines and the count is their number. Every new node's offset re-parses as a Z-move line, with offsets strictly increasing. The log has one line per layer except the current one |
| GCodeParser.FirstZMoveOpensLayer | src/nl/cyberwizzard/repdroid/GCodeParser.java:25 | No token value equals the starting `lastZ` of -999, so the first Z move always opens a layer |
| GCodeParser.SameZNoNewLayer | src/nl/cyberwizzard/repdroid/GCodeParser.java:127-141 | Two consecutive Z-move lines with the same Z: both are accepted, and the second leaves the chain and `lastZ` as the first left them |
| GCodeParser.RefusedOpensNothing | src/nl/cyberwizzard/repdroid/GCodeParser.java:120-141 | A refused line never opens a layer |
| GCodeParser.FreshPassFirstLine | src/nl/cyberwizzard/repdroid/GCodeParser.java:20-25 | On a fresh start, a Z move on the first line opens layer 1 at offset 0, the root's own offset |

## Left out

- `openFile` storage probing, the existence and readability checks, and `closeFile`: these are I/O on Android storage. The model starts from the file contents (`Open`).
- The `ByteBuffer` flip/limit mechanics: a channel read is modelled as filling a whole block until the last one. Short reads in mid-file (which regular files do not produce) and a read returning 0 are not modelled.
- `IOException` from `fetchBlock`: I/O failure is not modelled.
- `Open`: models only the first `openFile` of a process. The Java never resets the static `ptr` and `ptr_offset` (GCodeParser.java:17-18, 51-61), so a second `openFile` starts reading at the stale position of the previous file; the model always starts at offset 0.
- `Log.*`, `System.out` and `printStackTrace`: these are diagnostics only.
- IEEE-754 `float` rounding in the scanners and the `!=` test on Z, and `Float.toString` in `explain`. Values are exact reals, and `Explain` returns the values for G0/G1, G4 and G92 instead of formatted text.
- Java `int` overflow of `ptr_offset`, `ptr_history`, layer offsets and long opcode digit runs: integers are unbounded.
- `AfterSetData`: for a line longer than 127 bytes the Java leaves `buflen` at the line's length over the 128-byte buffer (GCommand.java:28-29, Command.java:10) without copying anything. The model keeps the previous buffer and length instead. For exactly 128 bytes the next accessor in the Java scans the 128 stale bytes, so the argument values it leaves differ from the model's, though its answer (ArgumentInvalid for opcode -1) is the same. For 129 bytes or more the Java's next accessor reads `buf[128]` and throws an ArrayIndexOutOfBoundsException (GCommand.java:322-326); the model does not have that failure, and `RejectedRefusesAll` is stated only for lines of at most 128 bytes.
- `RejectedRefusesAll`: does not cover lines of 129 bytes or more, for the reason above. `parseLine` never hands such a line to `setData`, since it refuses lines at 128 kept bytes.
- The message strings of the exceptions, and the two exception classes beyond their constructor arguments.
- The unused `ArrayList index` field, and `getCode`, which only reads the opcode.
- `RepDroidActivity`: this is the user interface.
