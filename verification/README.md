# Print pipeline model

print3d carries G-code from a client program to a 3D printer. This project models the path in Dafny and proves
that what comes out at the printer is what went in at the client: for sockets that deliver any fragments, sends
that are abandoned in the middle, other clients (as long as they do not clear, stop or add to the print), a buffer
made of size-limited pieces that are edited in place, replies that arrive in any chunks, and resends.

The files follow the path:

| files | what they hold |
|---|---|
| `Chunker.dfy`, `Ipc.dfy` | the frontend cuts a text into packets; the wire format of commands, written and read byte by byte |
| `CommandStream.dfy`, `Transactions.dfy`, `CommandHandler.dfy`, `CallEvents.dfy`, `CommandFacts.dfy` | the server reassembles commands from socket reads and collects packets into transactions, one per client; what each command does to the driver and what the client is told |
| `GCodeText.dfy`, `StoredText.dfy`, `Cleanup.dfy`, `Buckets.dfy`, `GCodeBuffer.dfy`, `Metadata.dfy` | the G-code buffer: what cleaned G-code is, the rewriting loops, the buckets, the counters and the sequence protocol |
| `Serial.dfy`, `MarlinSpec.dfy`, `MarlinFacts.dfy`, `MarlinDriver.dfy` | the Marlin driver: framing of replies, the state machine, what its events do, and the objects that refine it |
| `Crc.dfy`, `CrcPolynomial.dfy`, `S3GParser.dfy`, `MakerbotDriver.dfy` | the Makerbot driver: draining the buffer, tokenizing S3G, refilling the printer, framing and checking packets |
| `EndToEnd.dfy`, `PrintPath.dfy` | the parts put together: from a client's text to the driver's call, and on to the printer's serial line |

Objects with fields that the program updates are classes (`GCodeBuffer`, `MarlinDriver`, `Serial`, `Client`,
`Server`, `S3GParser`, `MakerbotDriver`); their methods are proved against functions and state machines on values,
and the lemmas are about those. The main results:

- **The buffer is a plain queue.** `GCodeBuffer.Append` adds exactly `CleanLines(gcode)`, the printable lines of the
  text by a definition that knows no buckets, pieces or rewriting. `GetNextLine` and `EraseLine` read and take from the front.
- **Socket to printer.** `EndToEnd.TextsArriveIntact` holds for every fragmentation and every interleaving with other
  clients, with sends finished or abandoned in any order. `PrintPath.SocketToPrinter` goes on to the serial line, and
  `PrintPath.ServeCalls` ties the calls to the driver object.
- **Runs of the Marlin driver.** How it comes online, safety over every run, and the exact sequence of lines sent in a print run.
- **The CRC is the Maxim/iButton code.** `CrcPolynomial.AcceptedIffMultiple`: the accepted words are exactly the multiples
  of its generator; and it detects odd errors, bursts and changed bytes in payloads of every length.

The functions that specify the parts are in turn tied to characters, bytes, codes and numbers by the members whose names
end in `Means`, `Form`, `Layout` or `Command`, and by `GCodeText.PrintablePart`, `S3G.ArgumentSizes` and `Metadata.SanityReasons`.

Some promises turned out not to hold as stated. The code is modelled as it is, and the exact condition is proved:

- The documentation of `append` (src/drivers/GCodeBuffer.cpp:94-95) asks that sequence numbers be "not greater than the total";
  the code requires them to be smaller, and does not check the chunk that announces the total
  (`Metadata.FixingChunkIsUnchecked`, `Metadata.NumbersBelowTotal`).
- The byte count exceeds the bytes held by the chunks wiped at the early return at src/drivers/GCodeBuffer.cpp:376
  (`Buckets.WipedBytesAreCounted`), and it exceeds the limit, by one, exactly after a text that fills the buffer to
  the last byte and lacks nothing but its last newline (`GCodeBuffers.GCodeBuffer.Append`, `Buckets.LimitIsExceeded`).
- The S3G tokenizer is exact if and only if a stream has no opcodes 149 and 153 (`S3G.TokenizerIsExact`, `S3G.MessageIsTwoCommands`).
- `bufferSpace_ - 5` wraps exactly if fewer than five bytes are left when a command is next, which takes a short answer to a
  query from the queue (`Makerbot.WrapsWhenFivesAreShort`, `Makerbot.WrapsOnlyAfterShortAnswer`, `Makerbot.WrappingRefill`).
- A client whose transaction was cancelled is told so and served all the same (`Server.Client.AppendGCode`).
- A start that is issued again while printing is not idempotent (`MarlinSpec.StartAgain`).

## Model

| member | source | states |
|---|---|---|
| PrintPath.SocketToPrinter | src/drivers/MarlinDriver.cpp:78-131 | From the bytes of a client, in any fragments, with sends finished or abandoned, and other clients that do not reach the driver, to the serial line: for any verdicts of the buffer, and any resends, other replies and appends while printing, exactly the printable lines of the accepted and finished texts and of the appends are sent, in order, each repeated only on request, and the driver is idle again |
| PrintPath.TextsFillTheQueue | src/drivers/AbstractDriver.cpp:92-102 | The calls for a series of texts extend the queue by the printable lines of those the buffer accepts, in order, and change nothing else |
| PrintPath.EveryLineIsPrinted | src/drivers/MarlinDriver.cpp:97-115 | A print confirmed to its end, with any resends, other replies and appends, sends the lines of the job in order, none left out and none twice but for resends, and ends idle with an empty queue |
| PrintPath.EveryIndexOnce | src/drivers/MarlinDriver.cpp:109-129 | Repeats aside, the lines sent are numbered one by one up to the last one confirmed and the one in flight |
| PrintPath.ServeCalls | src/drivers/AbstractDriver.cpp:92-144 | A driver that gets a list of calls goes through exactly the events they stand for, and accepts every text if metadata and sizes make them welcome |
| PrintPath.UniformTextsAreWelcome | src/drivers/GCodeBuffer.cpp:113-146 | A cleared buffer with room for all of them accepts texts that are numbered from 0 or not at all, of one source, with one total above the numbers |
| EndToEnd.TextsArriveIntact | src/server/CommandHandler.cpp:130-191 | For every fragmentation, every interleaving with other clients and every series of sends, finished, abandoned or stopped by an overlong line, exactly one appendGCode is made for each text sent to its end, with its own text, line count and metadata, in the order sent, and none for the others |
| EndToEnd.PacketReadsBack | src/server/CommandHandler.cpp:146-178 | Text, both bits, the three numbers and the source of a packet are read by the handler as the frontend wrote them, whether or not the text can be sent to its end |
| EndToEnd.PacketLayout | src/frontends/communicator.c:451-461 | The command of a packet argument by argument: code 0x13, data, bits 1 and 2, three numbers in four bytes each, and the source |
| EndToEnd.JobSoFar | src/server/Client.h:20-26 | After k packets of any text the transaction holds exactly its first k pieces and is active, whatever an abandoned send left there; the packet that ends the text makes the one call and empties it |
| EndToEnd.JobsInSequence | src/server/CommandHandler.cpp:179-190 | A series of sends makes one call for each that is finished and none for the others, from any initial transaction |
| Chunker.EndOfPacket | src/frontends/communicator.c:428-433 | The backward search finds the longest packet: up to the last newline within the packet size, or the rest of the text if it fits |
| Chunker.CutIsLongest | src/frontends/communicator.c:428-433 | A packet has at most 1016 bytes, and no longer beginning of the text that fits ends with a line or is the whole text |
| Chunker.SendGCodeData | src/frontends/communicator.c:408-489 | Sends a prefix of the packets of the text, all of them unless an answer is -1, which stops it at once; the first bit is on the first packet, the last bit on exactly the one that completes the text; returns -1 for an overlong line, else the last failure, and 0 exactly if the text can be cut, all packets were sent and every answer was good |
| Chunker.CuttableIffLinesFit | src/frontends/communicator.c:428-444 | The greedy cutting succeeds exactly if every line, counted with its newline, is at most MAX_PACKET_SIZE bytes |
| Chunker.PiecesAreTheText | src/frontends/communicator.c:428-478 | On success the packets concatenate to the text, have 1 to MAX_PACKET_SIZE bytes, and all but the last end in a newline |
| Chunker.BitsMarkTheEnds | src/frontends/communicator.c:451-454 | For any text, sent to its end or not, the last bit is on a packet exactly if the packets up to it make up the whole text |
| Ipc.StoreShort | src/utils.c:52-55 | Writes two bytes in place, big-endian, and no others |
| Ipc.StoreLong | src/utils.c:57-60 | Writes four bytes in place, big-endian, and no others |
| Ipc.BigEndian | src/utils.c:44-60 | Numbers are stored with the highest byte first |
| Ipc.ShortRoundTrip | src/ipc_shared.c:314-324 | A 16-bit argument reads back as it was given exactly if it is in the signed range |
| Ipc.LongRoundTrip | src/ipc_shared.c:326-336 | A 32-bit argument reads back as it was given exactly if it is in the signed range |
| Ipc.CmdSet | src/ipc_shared.c:212-222 | The buffer is the encoding of a command without arguments |
| Ipc.EmptyLayout | src/ipc_shared.c:212-222 | The four bytes of a command without arguments: its code and a count of 0 |
| Ipc.CmdAddArg | src/ipc_shared.c:224-236 | The reallocated buffer holds the old one with the argument and its length at the end and the count one up; a null argument is an empty one |
| Ipc.EncodeGrows | src/ipc_shared.c:224-236 | Adding an argument to an encoding gives the encoding of the command with that argument, for any number of arguments |
| Ipc.OneMoreLayout | src/ipc_shared.c:224-236 | The bytes that one more argument changes and adds: the count, four bytes of length, and the argument |
| Ipc.ConstructCmd | src/ipc_shared.c:155-210 | Numbers, strings and blobs added one by one give the encoding of the whole command |
| Ipc.CmdIsComplete | src/ipc_shared.c:238-255 | The loop returns where the last announced argument ends, or 0 if the buffer does not reach that far |
| Ipc.CmdGetArg | src/ipc_shared.c:267-293 | Walks to the requested argument of a complete command and returns its bytes, without leaving the command; -2 beyond the last one |
| Ipc.RoundTrip | src/ipc_shared.c:155-293 | An encoding of at most 65535 arguments is complete at exactly its own length whatever bytes follow, and code and all arguments read back |
| Ipc.PrefixFree | src/ipc_shared.c:238-255 | No proper prefix of an encoding is complete |
| Ipc.CompleteIffCountFits | src/ipc_shared.c:224-255 | An encoding is complete at its own length exactly if it has at most 65535 arguments |
| Ipc.CompleteIsEncoded | src/ipc_shared.c:238-293 | Conversely, whatever is complete is the encoding of the command that is read from it |
| CommandStream.CommandsAreTheStream | src/server/Client.cpp:26-31 | Commands and undecoded rest are the stream, nothing lost or made up, and the rest holds no complete command |
| CommandStream.StreamContinues | src/server/Client.cpp:22-31 | Further bytes extend the commands and never change those already run |
| CommandStream.FragmentationDoesNotMatter | src/server/Client.cpp:22-31 | However a stream is split into reads, the same commands are run in the same order and the same bytes are left |
| CommandStream.ReassembledCommands | src/server/Client.cpp:22-31 | Encoded commands, cut off inside the next one and split into any reads, are run exactly, and exactly the cut-off part is left |
| Transactions.ClientsAreIsolated | src/server/CommandHandler.cpp:130-191 | What a client makes the driver do, its transaction and its undecoded bytes depend on its own reads only, for every interleaving |
| Transactions.OnlyTheStreamCounts | src/server/Client.cpp:22-31 | Starting from scratch they depend on the client's byte stream only |
| Transactions.CallsAreInOrder | src/server/CommandHandler.cpp:179-182 | The driver is called in the order in which the causing commands are run, exactly once for each: last chunks, clear, start, stop, and files that can be read while no transaction is active |
| Server.ReadArguments | src/server/CommandHandler.cpp:146-176 | Reading the arguments one by one gives flags, numbers, source and text, with the defaults for those that are missing |
| Transactions.RequestMeans | src/server/CommandHandler.cpp:146-176 | How the arguments of an append are read byte by byte, and the values for missing ones |
| Server.ReadEndCode | src/server/CommandHandler.cpp:242-249 | The end code is the first argument up to its first NUL, or empty |
| Server.Client.AddChunk | src/server/CommandHandler.cpp:151-190 | A chunk starts, continues or finishes the transaction as its bits say; the last one hands over the whole text and answers with the buffer's verdict |
| Server.Client.AppendGCode | src/server/CommandHandler.cpp:130-191 | The append handler does to transaction, driver and answers what the specification says, for cancelled clients too |
| Server.Client.RemoveCommand | src/ipc_shared.c:351-365 | Removes exactly the command at the start of the buffer |
| Server.Server.CancelAllTransactions | src/server/Server.cpp:201-210 | Marks every client but one, and changes nothing else |
| Server.Server.AppendFile | src/server/CommandHandler.cpp:195-224 | Appends the file's text without metadata if it can be read and the client has no transaction in progress, and answers accordingly |
| Server.Server.StopPrint | src/server/CommandHandler.cpp:235-252 | Stops with the given end code, cancels the transactions of all other clients, answers, and leaves all buffers and transactions as they are |
| Server.Server.RunCommand | src/server/CommandHandler.cpp:43-57 | Every command makes the driver go through the events of its one call, and gives its client the answers, that the specification says (see the CommandFacts rows); the codes 0x12 and 0x16 cancel the transactions of all others, whose state is not touched otherwise |
| Server.Server.ClearGCode | src/server/CommandHandler.cpp:121-127 | Cancels all other transactions, makes the step Clear and answers |
| Server.Server.StartPrint | src/server/CommandHandler.cpp:227-232 | Makes the step Start and answers |
| CommandFacts.ClearCommand | src/server/CommandHandler.cpp:121-127 | After code 0x12 the queue is empty, no print goes on, and nothing was sent |
| CommandFacts.StartCommand | src/server/CommandHandler.cpp:227-232 | After code 0x15 an online driver with lines that was not printing has sent the first one, and keeps it queued |
| CommandFacts.StopCommand | src/server/CommandHandler.cpp:235-252 | After code 0x16 the queue is the printable lines of the argument up to its NUL, or none without argument or room, and an online driver has sent the first |
| CommandFacts.FileCommand | src/server/CommandHandler.cpp:195-224 | After code 0x14 the printable lines of a readable file are at the end of the queue if there is room, unless a transaction is in progress |
| CommandFacts.AppendCommand | src/server/CommandHandler.cpp:130-191 | After code 0x13 the printable lines of the collected text are at the end of the queue if the chunk was the last one and there is room; otherwise the client is told the reason |
| CommandFacts.OtherCommands | src/server/CommandHandler.cpp:43-57 | An append without arguments is an error; any other code does nothing |
| CallEvents.ObeyedOne | src/drivers/AbstractDriver.cpp:92-144 | The step that each kind of call makes |
| Server.Server.Poll | src/server/Client.cpp:22-31 | A read and the loop over complete commands end in the undecoded rest, with transaction, driver and number of answers as after all its commands; the others are cancelled exactly if one of them was a clear or stop, and not touched otherwise |
| Server.Server.AddClient | src/server/Server.cpp:138-144 | A new connection is a new client with nothing received and no transaction |
| GCodeText.PrintablePart | src/drivers/GCodeBuffer.cpp:356-379 | Of a text without line breaks, what precedes the first ';' is printed, or, where macros are kept, the first one that no '@' follows |
| GCodeText.BreaksSplit | src/drivers/GCodeBuffer.cpp:353-354 | LF and CR separate lines; with PrintablePart this says what is printed of any text |
| GCodeText.LinesHoldNoComments | src/drivers/GCodeBuffer.cpp:344-413 | No printable line is empty or holds a line break; without macros none holds a ';', with macros an '@' follows each |
| GCodeText.MacroLineIsKept | src/drivers/GCodeBuffer.cpp:359-363 | Where macros are kept, a line in which every ';' starts one is printed whole |
| GCodeText.SplitAtBreak | src/drivers/GCodeBuffer.cpp:168-176 | The printable lines of two texts with a line break between them are those of the first and those of the second |
| GCodeText.EraseComment | src/drivers/GCodeBuffer.cpp:357-379 | Erasing any comment up to its line end keeps all printable lines, even if another comment precedes it |
| GCodeText.CollapseNewlines | src/drivers/GCodeBuffer.cpp:383-389 | Replacing two newlines by one keeps all printable lines |
| GCodeText.CanonicalIsRendered | src/drivers/GCodeBuffer.cpp:344-413 | Text without CR, comment or blank line that ends a line is exactly its printable lines, each terminated |
| GCodeText.CleanLinesAreClean | src/drivers/GCodeBuffer.cpp:344-413 | No printable line is empty or holds a break or a comment |
| GCodeText.CleaningTwice | src/drivers/GCodeBuffer.cpp:344-413 | Cleaning clean text changes nothing |
| Cleanup.RemoveComments | src/drivers/GCodeBuffer.cpp:356-379 | The restarting comment scan ends, removes every comment after pos, keeps what precedes pos and every printable line, and stops early exactly if the whole bucket was one comment |
| Cleanup.LoneCommentMeans | src/drivers/GCodeBuffer.cpp:356-376 | Which texts empty a bucket: a ';' that starts no kept macro, and no line break after it |
| Cleanup.CollapseBlankLines | src/drivers/GCodeBuffer.cpp:383-389 | The newline loop ends, leaves no blank line in the new part or at its border, and keeps what precedes pos and every printable line |
| Cleanup.TrimEnds | src/drivers/GCodeBuffer.cpp:393-402 | After the last two steps the new part is exactly its printable lines, each terminated |
| Cleanup.CleanText | src/drivers/GCodeBuffer.cpp:344-413 | The whole rewriting leaves what precedes pos and turns the rest into its printable lines, each terminated |
| StoredText.LongestRendering | src/drivers/GCodeBuffer.cpp:393-402 | Cleaning makes a text longer, by one byte, exactly if it lacks nothing but its last newline |
| Buckets.StoreChunk | src/drivers/GCodeBuffer.cpp:321-342 | Storing a piece in the last bucket, or a new one, adds its printable lines to those of all buckets; the newlines counted are those lines, and the byte count grows by their size, or by the whole piece if it is a lone comment received by an empty bucket |
| Buckets.PieceStep | src/drivers/GCodeBuffer.cpp:168-176 | A round of the split loop advances past a newline or to the end, and cuts the text where cleaning commutes with cutting |
| Buckets.BytesAreLines | src/drivers/GCodeBuffer.cpp:321-413 | The bytes all buckets hold are exactly the lines of the queue, each terminated |
| Buckets.WipedAtTheEnd | src/drivers/GCodeBuffer.cpp:356-379 | At most the last piece of a text is wiped, and then lines and wiped bytes together are no more than the text |
| Buckets.GrowthIsBounded | src/drivers/GCodeBuffer.cpp:321-334 | A text adds at most one byte more than it has to the byte count, and that byte exactly if it lacks nothing but its last newline |
| Buckets.LimitIsExceeded | src/drivers/GCodeBuffer.cpp:142-146 | The text "G", accepted by an empty buffer of one byte, counts as two |
| Buckets.WipedBytesAreCounted | src/drivers/GCodeBuffer.cpp:376 | A lone semicolon counts as one byte in an empty buffer and leaves nothing in it |
| Buckets.ReadFront | src/drivers/GCodeBuffer.cpp:257-274 | The text read from a bucket reads back as its first min(max(amount, 1), present) lines |
| Buckets.CutFront | src/drivers/GCodeBuffer.cpp:282-300 | What is left of a bucket are its other lines; an empty one counts a line all the same |
| GCodeBuffers.GCodeBuffer.Append | src/drivers/GCodeBuffer.cpp:101-182 | An accepted text extends the queue by exactly its printable lines, for every split size, bucket size and contents, and the byte count by exactly their bytes and those wiped; the limit is exceeded, by one, exactly if the text fills the buffer and lacks only its last newline; a rejected one changes nothing; the invariant of buckets, counters and bytes is kept |
| GCodeBuffers.GCodeBuffer.AppendPieces | src/drivers/GCodeBuffer.cpp:165-176 | The split loop adds the printable lines of the whole text, and counts their bytes and those of a wiped last piece |
| GCodeBuffers.GCodeBuffer.AppendChunk | src/drivers/GCodeBuffer.cpp:321-342 | One piece extends queue and counters by its printable lines, and the byte count exceeds the bytes held by exactly the pieces wiped |
| GCodeBuffers.GCodeBuffer.Set | src/drivers/GCodeBuffer.cpp:74-78 | Replaces queue, metadata, total and byte count; with a rejected text the buffer is left empty |
| GCodeBuffers.GCodeBuffer.Clear | src/drivers/GCodeBuffer.cpp:184-203 | Empties queue, counters, metadata and all debts of the byte count |
| GCodeBuffers.GCodeBuffer.SetCurrentLine | src/drivers/GCodeBuffer.cpp:244-246 | The current line never exceeds the lines received |
| GCodeBuffers.GCodeBuffer.GetNextLine | src/drivers/GCodeBuffer.cpp:251-275 | Reads exactly the first lines of the queue, at most those of the front bucket, and none only if the queue is empty |
| GCodeBuffers.GCodeBuffer.EraseLine | src/drivers/GCodeBuffer.cpp:279-309 | Drops exactly the lines it counts from the front of the queue, and keeps the invariant of all counters; on an empty front bucket it drops none and counts one |
| GCodeBuffers.QueueHoldsNoComments | src/drivers/GCodeBuffer.cpp:344-413 | In every valid buffer each queued line is not empty and without line breaks, and without a ';' unless macros were kept since the last clear |
| GCodeBuffers.AdmissionMeans | src/drivers/GCodeBuffer.cpp:136-146 | A text is rejected for its metadata first, and for its size exactly if it would exceed the limit |
| Metadata.SanityMeaning | src/drivers/GCodeBuffer.cpp:113-134 | Exactly which metadata is accepted in which state |
| Metadata.SanityReasons | src/drivers/GCodeBuffer.cpp:113-134 | Exactly which error each rejected chunk gets |
| Metadata.NumbersAreConsecutive | src/drivers/GCodeBuffer.cpp:116-122 | Over any series of appends since a clear the accepted numbers are 0, 1, 2, ... with none omitted once numbering starts, and it starts only with byte count 0 |
| Metadata.TotalAndSourceNeverChange | src/drivers/GCodeBuffer.cpp:124-133 | Whatever total or source an accepted chunk fixes, every later accepted chunk carries the same, and a number below that total |
| Metadata.FixingChunkIsUnchecked | src/drivers/GCodeBuffer.cpp:124-128 | A first chunk with number 0 and total 0 is accepted |
| Metadata.NumbersBelowTotal | src/drivers/GCodeBuffer.cpp:124-128 | All accepted numbers are below the announced total exactly if the number of the chunk that announces it is |
| SerialPort.Serial.ExtractLine | src/drivers/Serial.cpp:287-311 | Takes exactly the first newline-terminated line off the buffer, without one trailing CR, or nothing if there is none |
| SerialPort.ReplyTextMeans | src/drivers/Serial.cpp:297-305 | Lines that end with CR LF and with LF read the same, up to the first NUL |
| SerialPort.LinesAreTheStream | src/drivers/Serial.cpp:287-311 | The lines, each terminated, and the rest are the byte stream, cut at its newlines and nowhere else |
| SerialPort.ReadSizesDoNotMatter | src/drivers/MarlinDriver.cpp:58-65 | However the stream is split into reads, the same lines come out |
| MarlinSpec.EveryRunIsSafe | src/drivers/AbstractDriver.cpp:79-144 | In every state of every run: printing or stopping implies a line in the queue whose front is the line sent last, online implies an open port and a seen temperature, and neither progress nor queue exceeds the lines received |
| MarlinSpec.ConfirmRetiresARealLine | src/drivers/MarlinDriver.cpp:109-115 | In every reachable state an `ok` while printing retires a line that is there and that is the one sent last, and the print goes on exactly if another one follows |
| MarlinSpec.ReplaceAlone | src/drivers/AbstractDriver.cpp:79-90 | Replacing the G-code during a print without restarting it is safe exactly if it is accepted and starts with the line in flight |
| MarlinSpec.JobContinues | src/drivers/MarlinDriver.cpp:84-131 | From any point of a print, a run of replies and appends sends exactly the lines the send indices say, and leaves the k-th line in flight |
| MarlinSpec.PrintRun | src/drivers/MarlinDriver.cpp:78-131 | From idle or buffering, in any mix of `ok`, `Resend:`, other replies and appends, the i-th `ok` retires the i-th line and sends the next, a resend sends the line in flight again, nothing else is sent, and currentLine is the number of distinct lines sent, never clamped |
| MarlinSpec.StopRun | src/drivers/AbstractDriver.cpp:125-130 | The end code is printed in the same way |
| MarlinSpec.RunEnds | src/drivers/AbstractDriver.cpp:256-273 | The `ok` for the last line ends the run: idle, queue empty, nothing sent |
| MarlinSpec.SendsAreInOrder | src/drivers/MarlinDriver.cpp:109-129 | Every send repeats the line before or is the next one, and the last one is the line in flight |
| MarlinSpec.NoResends | src/drivers/MarlinDriver.cpp:109-115 | Without resends every line is sent exactly once |
| MarlinSpec.StartAgain | src/drivers/AbstractDriver.cpp:132-144 | A start issued again during a print sends the line in flight again and counts it; progress stays right only if it was at the end |
| MarlinFacts.ComesOnline | src/drivers/MarlinDriver.cpp:97-103 | A driver that connects for the first time is online exactly if one of the replies starts with "ok T:" or "T:" |
| MarlinFacts.FirstLineIsSent | src/drivers/MarlinDriver.cpp:78-131 | From the very start: connecting, a temperature among any replies, some lines and the start command put exactly the first line on the wire |
| MarlinFacts.TemperatureMeans | src/drivers/MarlinDriver.cpp:97-107 | A temperature brings a connecting driver online, and changes nothing else but how often to ask |
| MarlinFacts.ConfirmMeans | src/drivers/MarlinDriver.cpp:109-115 | Any other reply that starts with "ok" retires the line in flight and sends the next, ends the print, or does nothing without one |
| MarlinFacts.OtherRepliesMean | src/drivers/MarlinDriver.cpp:117-129 | "Resend:" without "start" sends the front line again and counts it once; all others do nothing |
| MarlinFacts.ContainsMeans | src/drivers/MarlinDriver.cpp:117-121 | Containing a text means having it somewhere |
| MarlinFacts.StartMeans | src/drivers/AbstractDriver.cpp:132-144 | What a start does when no print is active, online or not, with lines or without |
| MarlinFacts.StartWithMeans | src/drivers/AbstractDriver.cpp:119-144 | What a start with a text does, accepted or not |
| MarlinFacts.StopMeans | src/drivers/AbstractDriver.cpp:125-144 | What a stop does in every state, with and without end code, accepted or not |
| MarlinFacts.ClearMeans | src/drivers/AbstractDriver.cpp:104-108 | A clear drops all lines, ends what was going on, and sends nothing |
| MarlinFacts.AppendMeans | src/drivers/AbstractDriver.cpp:92-102 | Appended lines go to the end of the queue, and an idle driver is buffering then |
| MarlinFacts.ConnectionMeans | src/drivers/AbstractDriver.cpp:45-66 | Connecting opens the port, disconnecting closes it, and both keep all lines |
| Marlin.MarlinDriver.OpenConnection | src/drivers/AbstractDriver.cpp:45-60 | Makes the step Connect, or none if the port cannot be opened |
| Marlin.MarlinDriver.CloseConnection | src/drivers/AbstractDriver.cpp:62-66 | Makes the step Disconnect |
| Marlin.MarlinDriver.ResetPrint | src/drivers/AbstractDriver.cpp:263-273 | Idle at line 0 if online, else nothing |
| Marlin.MarlinDriver.PrintNextLine | src/drivers/AbstractDriver.cpp:245-261 | Sends the front line of the queue and counts it, or ends the print |
| Marlin.MarlinDriver.SetGCode | src/drivers/AbstractDriver.cpp:79-90 | Replaces the queue by the printable lines of the text, or empties it if the text is rejected |
| Marlin.MarlinDriver.AppendGCode | src/drivers/AbstractDriver.cpp:92-102 | Makes the step Append with the printable lines of an accepted text; a rejected one changes nothing |
| Marlin.MarlinDriver.ClearGCode | src/drivers/AbstractDriver.cpp:104-108 | Makes the step Clear |
| Marlin.MarlinDriver.StartPrintAs | src/drivers/MarlinDriver.cpp:78-82 | Sends the first line if online; an active print is not reset |
| Marlin.MarlinDriver.StartPrintWith | src/drivers/AbstractDriver.cpp:119-123 | Replaces the G-code, unless the text is empty, and starts |
| Marlin.MarlinDriver.StopPrint | src/drivers/AbstractDriver.cpp:125-130 | Makes the step Stop with the printable lines of the end code |
| Marlin.MarlinDriver.ReadResponseCode | src/drivers/MarlinDriver.cpp:84-131 | Makes the step for the kind of reply (see the MarlinFacts rows), and keeps the driver safe |
| Marlin.MarlinDriver.Update | src/drivers/MarlinDriver.cpp:29-71 | One turn sends a temperature request if one is due, handles exactly the complete lines of what has arrived, in order, and keeps the rest |
| Marlin.HandlingIsARun | src/drivers/MarlinDriver.cpp:61-64 | Handling reply lines is a run of the state machine |
| Marlin.DriverSeesTheStream | src/drivers/MarlinDriver.cpp:58-66 | What the driver does depends on the byte stream from the printer only, not on how it is split into reads |
| Crc.Update | src/drivers/MakerbotDriver.cpp:283-291 | The shift loop computes the register function that the theorems are about |
| Crc.TurnFacts | src/drivers/MakerbotDriver.cpp:283-291 | An update keeps the parity, and only zero turns to zero |
| Crc.CheckIsLinear | src/drivers/MakerbotDriver.cpp:283-291 | The check value of a disturbed word is that of the word combined with that of the error |
| Crc.DetectionDependsOnErrorOnly | src/drivers/MakerbotDriver.cpp:415-430 | An error goes undetected exactly if it would itself be an accepted word, whatever the payload |
| Crc.OddErrorsAreDetected | src/drivers/MakerbotDriver.cpp:415-430 | Every error in an odd number of bits is detected, for payloads of any length |
| Crc.BurstsAreDetected | src/drivers/MakerbotDriver.cpp:415-430 | Every burst of at most eight consecutive bits is detected, also across two bytes or into the check byte |
| Crc.SingleByteChangesAreDetected | src/drivers/MakerbotDriver.cpp:415-430 | Every change of one byte, the check byte included, is detected |
| Crc.MakePacket | src/drivers/MakerbotDriver.cpp:484-492 | Start byte, length, payload and check byte, which the receiver's comparison accepts |
| Crc.ResponseIsIntact | src/drivers/MakerbotDriver.cpp:415-430 | The comparison holds exactly if payload and check byte form an accepted word |
| CrcPolynomial.AcceptedIffMultiple | src/drivers/MakerbotDriver.cpp:283-291 | A word is accepted exactly if its bits are a product with the generator x^8 + x^5 + x^4 + 1, for words of any length |
| CrcPolynomial.CheckIsFeed | src/drivers/MakerbotDriver.cpp:283-291 | The check byte by byte is that of the bits one by one |
| CrcPolynomial.FeedsAreProducts | src/drivers/MakerbotDriver.cpp:283-291 | The bits taken in are the product of the generator and the bits fed back, up to what is still in the register |
| CrcPolynomial.PacketIsMultiple | src/drivers/MakerbotDriver.cpp:484-492 | A packet is 0xD5, the length, the payload and the one check byte that makes it a multiple of the generator |
| CrcPolynomial.QueryOnTheLine | src/drivers/MakerbotDriver.cpp:348-353 | The space query goes over the line as D5 01 02 BC |
| S3G.CalcSizeOfChar | src/drivers/S3GParser.h:70-79 | The table search gives the size of a format character |
| S3G.ArgumentSizes | src/drivers/S3GParser.h:38-87 | How many bytes of arguments follow each opcode |
| S3G.ToolActionForm | src/drivers/S3GParser.h:89-103 | Opcode 136, two bytes, a length and that many bytes are one command |
| S3G.TextForm | src/drivers/S3GParser.h:105-123 | Opcode 149 or 153, four bytes, a text and a zero are parsed into opcode and text, and a zero |
| S3G.ArgumentForm | src/drivers/S3GParser.h:125-148 | Any other opcode is a command with exactly its number of argument bytes |
| S3G.S3GParser.ParseToolAction | src/drivers/S3GParser.h:89-103 | Takes the header and the length-prefixed payload |
| S3G.S3GParser.ParseText | src/drivers/S3GParser.h:105-123 | Drops four option bytes, takes the text, and leaves its terminator |
| S3G.S3GParser.ParseNextCommand | src/drivers/S3GParser.h:125-148 | Takes one command off the buffer, never reads beyond it, and fails exactly at its end |
| S3G.S3GParser.ParseAll | src/drivers/MakerbotDriver.cpp:124-125 | The loop ends at the end of the buffer with all its commands |
| S3G.StreamTokens | src/drivers/S3GParser.h:89-148 | What any concatenation of well-formed commands is parsed into, text commands included |
| S3G.TokenizerIsExact | src/drivers/S3GParser.h:89-148 | Parsing a concatenation of well-formed commands returns exactly them if and only if none has opcode 149 or 153 |
| S3G.MessageIsTwoCommands | src/drivers/S3GParser.h:105-123 | A display message with an empty text is parsed into two commands |
| Makerbot.RefillIsGreedy | src/drivers/MakerbotDriver.cpp:257-267 | With no space query queued, a refill sends the longest prefix of the queue that leaves five bytes free, accounts for the space exactly, and never wraps |
| Makerbot.NoQueriesMeans | src/drivers/MakerbotDriver.cpp:348-353 | The queues for which a refill is exact are those without opcode 2 |
| Makerbot.WrapsWhenFivesAreShort | src/drivers/MakerbotDriver.cpp:257-267 | For any queue, space and answers, the subtraction wraps exactly if at some command all those before it have fitted and less than five bytes are left |
| Makerbot.WrapsOnlyAfterShortAnswer | src/drivers/MakerbotDriver.cpp:257-267 | From at least five bytes, the wrap comes right after a query from the queue that was answered with less than five |
| Makerbot.WrappingRefill | src/drivers/MakerbotDriver.cpp:257-267 | A query in front of another command, answered with 0, makes it wrap |
| Makerbot.WrappedRefillGoesOn | src/drivers/MakerbotDriver.cpp:257-267 | With fewer than five bytes left the next command is sent although there is no room for it |
| Makerbot.ResponsesMean | src/drivers/MakerbotDriver.cpp:472-542 | By the first attempt that does not fail, or the fifth: a valid answer to a query sets the space to its value, anything else takes the length off once, modulo 2^32 |
| Makerbot.MakerbotDriver.ConvertGCode | src/drivers/MakerbotDriver.cpp:115-131 | Queues exactly the commands of the converted text; an empty text does nothing |
| Makerbot.MakerbotDriver.Fill | src/drivers/MakerbotDriver.cpp:70-89 | The drain loop ends; the lines handed to the converter followed by those still queued stay those received, across bucket boundaries, and so do commands sent and queued those of all texts; each text holds at most 25 lines; it stops only with 30 commands or no lines; progress counts every line drained and is never cut down |
| Makerbot.MakerbotDriver.AppendGCode | src/drivers/AbstractDriver.cpp:92-102 | An accepted text adds its printable lines, macros included, to those received |
| Makerbot.MakerbotDriver.ClearGCode | src/drivers/MakerbotDriver.cpp:139-142 | Drops lines and commands that are not yet sent, and ends the print |
| Makerbot.MakerbotDriver.StartPrint | src/drivers/MakerbotDriver.cpp:196-212 | Starts if online, at line 0 unless a print is active, and sends nothing |
| Makerbot.MakerbotDriver.SendPacket | src/drivers/MakerbotDriver.cpp:472-542 | Sends the packet of the payload, again after every error but five times at most, and takes its length off the space once, or keeps the value of a valid answer to a query for it; succeeds exactly if the last response was valid or empty |
| Makerbot.MakerbotDriver.ProcessQueue | src/drivers/MakerbotDriver.cpp:251-279 | Sends a query, then exactly the commands of a refill, in order. Told v bytes, it sends nothing if v is at most 480, else the longest part of the queue that leaves five of the v bytes; the print ends exactly with nothing queued and at least 512 bytes |
| Makerbot.MakerbotDriver.SendWhatFits | src/drivers/MakerbotDriver.cpp:257-267 | The refill loop ends and sends exactly as many commands as the specification of a refill, in order, each as often as its responses require |
| Makerbot.MakerbotDriver.Update | src/drivers/MakerbotDriver.cpp:67-95 | Every round keeps the invariant that the lines received are those of the texts converted and those still queued, and the commands of these texts those sent and those queued, in order; a print is finished only when all lines received are converted and all commands sent |

## Left out

- Sockets, select, fork, termios, poll, timeouts: a read appends arbitrary bytes, and a write is complete. A missing or failed read is a read of nothing.
- Logging, timers, settings, device discovery, DriverFactory, the command-line and Lua frontends: no influence on the path. The log call at src/drivers/GCodeBuffer.cpp:136-138 reads metadata that may be null; it is dropped.
- Integer widths of counters, line numbers and buffer lengths: unbounded here. Widths are modelled where they matter: the wire format, the check byte, the packet length byte and the Makerbot buffer space.
- MAX_BUCKET_SIZE, MAX_BUFFER_SIZE and BUFFER_SPLIT_SIZE are arguments of the constructors, and the results hold for all their values; only a bucket size of 0 is excluded.
- Allocation failures, and pointers that wrap in ipc_cmd_is_complete when a length field is near 2^32 on a 32-bit machine.
- GCodeBuffers.GCodeBuffer.EraseLine: asking an empty front bucket for more than one line reads before its beginning, so it is a precondition; the drivers never do it.
- GCodeBuffers.GCodeBuffer.Append: the bucket pointers in the deque are values here, since no two buckets share a string.
- SerialPort.Serial.ExtractLine: for a line of length zero the source looks at the byte before its copy; that read is not modelled.
- Server.Server.RunCommand: append commands with number arguments shorter than their type, and file commands without a name, read uninitialised or foreign memory in the source and are preconditions.
- Query commands (test, temperature, progress, state, heatup) and their replies: they change nothing on the path. The heatup command sends a line out of band.
- EndToEnd.TextsArriveIntact: the file system is any function from names to contents, a source name has less than 2^32 bytes, and the texts are C strings.
- PrintPath.SocketToPrinter: other clients make no call of the driver, since any of them may clear, stop or add to the print; the print is started by an event of its own.
- Transactions.ClientsAreIsolated: an append with too short numbers, for which the program reads foreign memory, does nothing here.
- Server.Server.AddClient: closed connections, after whose last commands the client is deleted.
- Server.Server.Poll: the answers are counted; what each of them says is stated by `Server.Server.RunCommand`.
- Marlin.MarlinDriver.Update: which timers have run out is a parameter; connection attempts, baud rates and the parsing of temperatures. Of a temperature request only its place between the lines sent is kept.
- Marlin.MarlinDriver.OpenConnection: that the port opens and takes the speed is a parameter.
- MarlinSpec.PrintRun: a start issued again (see `MarlinSpec.StartAgain`), clear, stop and disconnect end the run that it describes.
- Makerbot.MakerbotDriver.Fill: gpx_convert is a foreign library, any function from text to bytes that the parser can read; the commands-per-line ratio is floating point and only reported.
- Makerbot.MakerbotDriver.SendPacket: what comes back for each attempt is a parameter; bytes left over in the read buffer, temperature queries, firmware version, setGCode, stop and song are not modelled.
- S3G.CalcSizeOfChar: no format in the table holds a NUL, for which the source looks past its size string.
