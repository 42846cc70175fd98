# Verified models of the HF_DFS protocol core

HF_DFS ships two C libraries that carry its network traffic: hiredis, the Redis
client, and the FastCGI application library. This project models their
protocol code in Dafny and proves what the code is for: that a parser which may
stop at any byte refines a simple recursive one, that a framing writer and a
de-framing reader invert each other, that a callback queue survives any
teardown, and that a hash table is a map. Loops stay loops, objects that are
updated in place are classes, and buffers are arrays. Each stateful operation
is tied to a specification function, and the laws are proved about whole runs.

`dafny verify dfyconfig.toml` checks everything.

## What is proved

**The Redis reader** (`Resp`, `RespResume`, `RespPrefix`, `RespPrint`, `ReplyHeap`,
`TaskStack`, `RespReader`). `Resp.ParseStream` is a recursive-descent parser of a
whole byte stream. `RespReader.Reader` is the code's reader: nine task slots, a
buffer that grows, is recycled and is compacted, and reply objects that are filled
in slot by slot. `RespReader.ReadStream` proves that for every way of cutting a
stream into feeds the replies, the final status and the place reached equal the
recursive parse of the bytes fed. The invariant behind it is `TaskStack.Stack`:
below the current slot every slot is an open array whose earlier children are
complete, whose current child is the object of the slot above, and whose later
children are empty. Methods of the reader take a ghost parameter, the bytes still
to come, and promise that the outcome of the reply under construction given those
bytes never changes; `RespPrefix` shows that a prefix already decides what it can.
`RespPrint` says byte by byte how a server writes replies, and
`RespPrint.ReadReplies` that any of them come out of the reader.

**Commands** (`Decimal`, `SdsFormat`, `Command`, `Arguments`, `FormatString`).
The three formatters are proved against one text of a command, which is what a
server would write for its arguments (`Command.CommandPrinted`). A format written
as words with conversions makes the command of these words with the arguments put
in (`FormatString.FormatWords`). Any list of
binary arguments comes back from the reader, with nothing left in its buffer
(`Command.EchoCommand`), and from
`nextArgument` (`Arguments.AllArguments`). Every 64-bit number comes back from
being printed (`Decimal.PrintAndRead`). Sizes and positions are C ints where
the code keeps them in ints: a command is made exactly when it fits an int with
its terminator, and exactly then the two argv formatters agree
(`Command.FormattersAgree`).

**Dynamic strings and the output buffer** (`Sds`, `Repr`, `OutputBuffer`).
Header fields truncate as in C; `Sds.Run` shows that under any operations the
growth policy always picks a header wide enough, so the text is never damaged.
Printing a list of strings and splitting the line gives the list back
(`Repr.SplitJoin`, `Repr.PrintAndSplit`), and so does splitting words written bare
or in either kind of quotes (`Repr.SplitWords`). `OutputBuffer.Conserved` accounts for
every byte of every run of appends and partial writes.

**The asynchronous context** (`CallbackList`, `AsyncTrace`, `Async`,
`AsyncSession`). A linked queue of callbacks and the teardown state machine. User
code inside a callback is any list of commands, disconnects and frees, given by a
script for each callback. `AsyncTrace.Step` says what can be seen of a context
after each kind of event. `AsyncTrace.UserLaws`, `AsyncTrace.SocketLaws` and
`AsyncTrace.ReadLaws` say what that comes to in plain terms, `AsyncTrace.FreedIff`
why a context is freed and `AsyncTrace.StepBooked` what is in its books.
`AsyncSession.Run` covers every run of an event loop that reads bytes through the
reply reader, and gives the whole history of the run. The assertion inside the
disconnect function is an obligation of `Async.Context.DisconnectContext`'s
callers.

**The hash table** (`Bits`, `HashTable`, `HashIterator`). Buckets are linked
nodes that are relinked in place. `HashTable.Run` refines a finite map over any
sequence of operations, growth included; `HashIterator.Sweep` proves the
iterator's promise that its user may delete the entry just returned.

**FastCGI** (`FcgiRecord`, `FcgiWriter`, `FcgiSession`, `FcgiInput`,
`FcgiReader`, `FcgiParams`), following the FastCGI Specification 1.0, sections
3.3, 3.4, 5.2, 5.3 and 5.5. `FcgiSession.RunRequest` covers two writers that
share one request; `FcgiReader.ReadRecords` covers one reader under any
fragmentation; `FcgiParams.EnvironmentTrip` sends an environment through a
writer, the wire, the reader and the decoder and gets it back.
`FcgiInput.Deliver` describes what the reader makes of every input, protocol
errors and attempts to multiplex included. The bytes of headers, end records and
lengths are stated one by one (`FcgiRecord.RecordOnWire`, `FcgiRecord.EndRequestBody`,
`FcgiParams.EntryOnWire`, `FcgiInput.OwnRead`).

`CTypes` holds the conversions to int and long long; a sum that overflows is taken
to wrap, and an allocation of a negative int to fail.

## Where the code differs from what one would expect

- An empty record of another request directly before an own record makes the
  reader swallow the own record, since the skip flag is cleared only after
  skipped content (fcgi/libfcgi/fcgiapp.c:1649-1662, 1723-1725).
  `FcgiInput.LostByte` is an input; `FcgiInput.IntactIff` is the exact condition.
- Switching the reader to another stream forgets padding that is still unread
  (fcgi/libfcgi/fcgiapp.c:1845-1857); `FcgiInput.SwitchIff` says what follows.
- Sizes kept in ints bound what the code can do. The plain formatters make a
  command only if it fits an int with its terminator (`Command.FormattedIff`,
  `Command.LongArgument`). sdsrange loses text from 2^31 bytes on
  (`Sds.RangeIff`, `Sds.LostText`), and with it the output buffer
  (`OutputBuffer.Conserved`, `OutputBuffer.NextMissing`). The search for
  a line end fails on longer buffers (`RespReader.SeekIff`). A parameter decoder
  cannot size pairs whose announced lengths exceed an int together
  (`FcgiParams.ReadParams`, `FcgiParams.WideLengths`). An iterator finds nothing
  in a table of 2^31 buckets or more (`HashIterator.Sweep`).
- The error text of the Redis reader speaks of a depth above 7, the code accepts
  eight open arrays (hiredis-master/read.c:309-314). The model follows the code.
- A count of children is kept in an int: `*4294967297` announces one child, and
  `*4294967296` an array without room for those that follow (`Command.WideCount`).
- The two bytes after a bulk string are not examined and a malformed number
  reads as -1 (hiredis-master/read.c:148-173, 249-300). The model does the same.

## Model

| member | source | states |
|---|---|---|
| `RespReader.ReadStream` | hiredis-master/read.c:445-525 | for every split of a stream into feeds, draining after each: replies and final status are those of the recursive parse of the bytes fed, and the bytes left in the buffer lie behind those replies; feeding stops only in front of a chunk with which the buffer would outgrow an int; every emitted reply is complete |
| `Resp.ParseItem` | hiredis-master/read.c:367-414 | the recursive-descent reference: an item that is there or refused takes at least one byte |
| `Resp.ParseBody` | hiredis-master/read.c:215-365 | reference parse of an item after its type byte, with numbers cut to 64 bits and counts to an int; a finished body consumes input |
| `Resp.ParseList` | hiredis-master/read.c:302-365 | reference parse of n items in a row: a finished list has exactly n replies |
| `Resp.FindCrLf` | hiredis-master/read.c:120-144 | the first CR LF pair: no earlier position holds one, and -1 only if there is none |
| `Resp.FindCrLfExtend` | hiredis-master/read.c:120-144 | a line end found in a prefix is the line end of every longer input |
| `Resp.ItemComplete` | hiredis-master/read.c:302-414 | every item that parses has all its announced children and nests at most the levels left |
| `Resp.ListComplete` | hiredis-master/read.c:302-365 | the same for every reply of a list |
| `Resp.CompleteFront` | hiredis-master/read.c:302-365 | a complete reply in front of complete replies |
| `Resp.StreamComplete` | hiredis-master/read.c:477-525 | every reply of a stream has no missing child and at most eight levels of arrays |
| `RespResume.ResumeList` | hiredis-master/read.c:190-213 | resuming inside a half-read array equals parsing the rest of its children and closing it |
| `RespResume.ResumeArray` | hiredis-master/read.c:302-365 | resuming right after an array header equals parsing its list of children |
| `RespPrefix.ItemExtend` | hiredis-master/read.c:367-414 | bytes that come later never change an item or a refusal, and an item that is not there yet needs some of them |
| `RespPrefix.BodyExtend` | hiredis-master/read.c:215-365 | the same for an item whose type is known |
| `RespPrefix.ListExtend` | hiredis-master/read.c:302-365 | the same for a row of items |
| `RespPrefix.ResumeExtend` | hiredis-master/read.c:190-213 | the same for a reply read half-way |
| `RespPrefix.UnwindExtend` | hiredis-master/read.c:190-213 | the same when an item of it has just been finished |
| `RespPrefix.AfterNext` | hiredis-master/read.c:477-525 | the next reply of a stream, or its end, is the item behind the replies before it |
| `RespPrefix.PrefixParsed` | hiredis-master/read.c:445-525 | if the first n replies end before the last bytes, and the next one is refused before these or needs some of them, then the bytes before these parse to exactly the n replies and the right ending |
| `ReplyHeap.BuiltStable` | hiredis-master/hiredis.c:102-189 | a finished reply object is never changed by later creations and slot updates |
| `TaskStack.AttachStack` | hiredis-master/hiredis.c:102-189 | creating an object fills exactly the slot of the current item; the stack invariant and the open arrays are kept |
| `TaskStack.AttachLink` | hiredis-master/hiredis.c:102-189 | creating an object, seen from any enclosing array: its finished children and its frame stay the same |
| `TaskStack.ObjectsIncrease` | hiredis-master/read.c:302-365 | along the stack every open array is an older object than the arrays opened inside it |
| `TaskStack.PopStack` | hiredis-master/read.c:190-213 | finishing the last child completes the parent array and means the same to the resumable parser |
| `TaskStack.AdvanceStack` | hiredis-master/read.c:190-213 | finishing an earlier child moves to the next empty slot and means the same to the resumable parser |
| `TaskStack.PushStack` | hiredis-master/read.c:302-365 | opening an array keeps the stack invariant and adds one empty frame |
| `RespReader.SeekNewline` | hiredis-master/read.c:120-144 | the scanning loop finds exactly the first CR LF of the bytes an int position can reach |
| `RespReader.SeekIff` | hiredis-master/read.c:120-144 | the search is right about every buffer of a given length if and only if the length is at most 2^31 |
| `RespReader.ScanLine` | hiredis-master/read.c:215-247 | status, error and integer lines agree with the reference parse whatever bytes follow; no result only if the reference needs more |
| `RespReader.ScanBulk` | hiredis-master/read.c:249-300 | bulk strings agree with the reference parse whatever bytes follow; the two bytes after the body are not examined |
| `RespReader.ScanCount` | hiredis-master/read.c:302-365 | array headers agree with the reference parse, including counts of zero, -1 and below, and counts cut to an int |
| `RespReader.RestOfTooDeep` | hiredis-master/read.c:302-316 | an array item inside eight open arrays is an error whatever follows |
| `RespReader.RestOfType` | hiredis-master/read.c:371-397 | an unknown type byte is an error whatever follows; a known one is consumed |
| `RespReader.Reader.constructor` | hiredis-master/read.c:416-435 | a new reader is idle and holds nothing |
| `RespReader.Reader.SetError` | hiredis-master/read.c:46-70 | a protocol error drops buffer, stack and reply under construction and is remembered |
| `RespReader.Reader.MoveToNextTask` | hiredis-master/read.c:190-213 | closing every array the finished item completes: the outcome promised before equals the finished root, or the outcome of resuming at the next slot |
| `RespReader.Reader.Create` | hiredis-master/hiredis.c:102-189 | a new object is stored in the slot of the current item only |
| `RespReader.Reader.FinishItem` | hiredis-master/read.c:215-300 | a finished leaf is consumed, stored and left with the promised outcome unchanged |
| `RespReader.Reader.ProcessLineItem` | hiredis-master/read.c:215-247 | one step on a line item keeps the promised outcome or needs more bytes |
| `RespReader.Reader.ProcessBulkItem` | hiredis-master/read.c:249-300 | one step on a bulk string keeps the promised outcome or needs more bytes |
| `RespReader.Reader.OpenArray` | hiredis-master/read.c:332-361 | an array of n children pushes a task; the rest is the resumed parse with one more open frame |
| `RespReader.Reader.PushTask` | hiredis-master/read.c:343-353 | the array's slot records count and object, and the slot above it starts at child 0 |
| `RespReader.Reader.ProcessMultiBulkItem` | hiredis-master/read.c:302-365 | one step on an array header keeps the promised outcome, or fails at the ninth level or at a count whose sign an int does not keep |
| `RespReader.Reader.ReadType` | hiredis-master/read.c:367-397 | the type byte is read once; an unknown one is a protocol error |
| `RespReader.Reader.ProcessItem` | hiredis-master/read.c:367-414 | every step keeps the promised outcome and consumes input when it succeeds |
| `RespReader.Reader.ProcessItems` | hiredis-master/read.c:502-505 | the step loop ends with a whole reply, an error or a need for more bytes, each as promised |
| `RespReader.Reader.AppendToBuffer` | hiredis-master/read.c:452-472 | recycling a large empty buffer and appending never change the unread bytes |
| `RespReader.Reader.Feed` | hiredis-master/read.c:445-475 | feeding shifts bytes from the future to the buffer: the outcome stays the same |
| `RespReader.Reader.Compact` | hiredis-master/read.c:510-516 | dropping consumed bytes at one kilobyte is invisible, for buffers whose length fits an int |
| `RespReader.Reader.StartReply` | hiredis-master/read.c:491-499 | an idle reader gets a root task; nothing is consumed |
| `RespReader.Reader.EmitReply` | hiredis-master/read.c:510-524 | a finished reply is handed over with exactly the unread bytes left |
| `RespReader.Reader.GetReply` | hiredis-master/read.c:477-525 | a reply, an error or nothing, each exactly when the reference parser says so, an error only on bytes that were fed; the unread bytes are the end of those before |
| `RespReader.TakeReply` | hiredis-master/read.c:477-525 | one reply is the next of the stream, the reader stands behind it, and nothing comes only if the bytes at hand do not complete one |
| `RespReader.Drain` | hiredis-master/read.c:477-525 | draining emits the next replies of the stream until the bytes at hand complete no other |
| `RespReader.Deliver` | hiredis-master/read.c:445-525 | one feed and drain emits the next replies of the stream and leaves the reader behind them |
| `RespReader.FinalStatus` | hiredis-master/read.c:482-488 | a reader reports waiting or its protocol error |
| `RespReader.RestExtend` | hiredis-master/read.c:477-525 | what a half-read reply comes to is not changed by later bytes |
| `RespReader.SoFar` | hiredis-master/read.c:477-525 | a drained reader has emitted exactly the replies that the recursive parser finds in the bytes fed, reports the same ending, and holds unread bytes only from behind them |
| `RespPrint.PrintParses` | hiredis-master/read.c:215-414 | every reply a server can send, written with its type byte, its lines and its counts, parses to that reply in front of anything, at any depth |
| `RespPrint.AllParse` | hiredis-master/read.c:302-365 | so do replies one after the other |
| `RespPrint.LineParses` | hiredis-master/read.c:215-247 | a plus sign starts a status and a minus sign an error |
| `RespPrint.IntegerParses` | hiredis-master/read.c:215-247 | a colon starts an integer of 64 bits |
| `RespPrint.StringParses` | hiredis-master/read.c:249-300 | a dollar sign starts a length, and that many bytes follow |
| `RespPrint.NilParses` | hiredis-master/read.c:249-330 | length -1 and count -1 are nil |
| `RespPrint.NegativeLength` | hiredis-master/read.c:249-274 | so is any negative length |
| `RespPrint.ArrayParses` | hiredis-master/read.c:302-365 | an asterisk starts a count, and that many replies follow; none for zero and below |
| `RespPrint.CutOff` | hiredis-master/read.c:215-414 | a reply cut off anywhere is waited for |
| `RespPrint.OtherType` | hiredis-master/read.c:371-397 | any other first byte is refused |
| `RespPrint.NineDeep` | hiredis-master/read.c:309-314 | nine arrays inside each other are refused at the ninth asterisk |
| `RespPrint.Malformed` | hiredis-master/read.c:161-170 | a number with anything but digits before its line end reads as -1 |
| `RespPrint.PlusSign` | hiredis-master/read.c:151-158 | a plus sign in front of a number changes nothing |
| `RespPrint.StreamParses` | hiredis-master/read.c:477-525 | printed replies parse as a stream to those replies, with nothing left |
| `RespPrint.ReadReplies` | hiredis-master/read.c:445-525 | any replies as a server writes them, fed to the reader in any chunks: exactly these replies come out, and the reader waits with an empty buffer |
| `Command.EchoCommand` | hiredis-master/hiredis.c:530-566 | every list of binary arguments whose command the plain formatter can make, fed to the reader in any chunks, yields one array reply of those strings and nothing else; the reader waits with its buffer fully consumed |
| `Command.CommandParses` | hiredis-master/hiredis.c:530-566 | the reference parser reads a formatted command back with no byte left over |
| `Command.CommandPrinted` | hiredis-master/hiredis.c:552-560 | the command text is what a server would write for an array of the arguments as strings |
| `Command.BulkParses` | hiredis-master/hiredis.c:553-560 | one printed argument parses to that string, whatever its bytes and whatever follows |
| `Command.BulksParse` | hiredis-master/hiredis.c:553-560 | a row of printed arguments parses to the list of strings |
| `Command.DecimalLine` | hiredis-master/hiredis.c:552-555 | a printed number line is found and read back as the number, cut to 64 bits |
| `Command.BulkLen` | hiredis-master/hiredis.c:205-208 | the predicted size of an argument is the size it has once written |
| `Command.PredictLength` | hiredis-master/hiredis.c:489-494 | the length predicted in 64 bits is the length of the command |
| `Command.PredictInt` | hiredis-master/hiredis.c:540-545 | the length predicted in an int is the length of the command converted to int |
| `Command.FormattedIff` | hiredis-master/hiredis.c:540-551 | a command is written whole if and only if it fits an int with its terminator; the next gigabytes are refused for lack of memory |
| `Command.LongArgument` | hiredis-master/hiredis.c:540-551 | one argument of 2^31 bytes gets no command |
| `Command.WriteBulk` | hiredis-master/hiredis.c:553-560 | one argument is appended at the write position |
| `Command.BuildCommand` | hiredis-master/hiredis.c:547-562 | the area of the predicted int size is filled exactly and terminated if and only if the command fits an int with its terminator; otherwise the area cannot be had or is too small |
| `Command.FormatCommandArgv` | hiredis-master/hiredis.c:530-566 | the whole formatter: predicted int, contents and terminator, or the exact way in which it fails |
| `Command.CatBulk` | hiredis-master/hiredis.c:508-513 | one argument appended to a dynamic string, its length cut to 32 bits by the conversion, if and only if its length line ends within an int |
| `Command.CatBulks` | hiredis-master/hiredis.c:508-513 | all arguments appended, if and only if the last length line ends within an int |
| `Command.FormatSdsCommandArgv` | hiredis-master/hiredis.c:477-519 | the formatter over dynamic strings: the command with 32-bit lengths, a write position that left the int range, or the failing length assertion, each exactly when |
| `Command.SdsTextIff` | hiredis-master/hiredis.c:506-515 | its text is the command if and only if every length line ends within an int and every length fits 32 bits |
| `Command.LineFormat` | hiredis-master/hiredis.c:507-510 | a format of one literal, one conversion and CR LF expands to that line |
| `Command.FormattersAgree` | hiredis-master/hiredis.c:477-566 | both formatters return the same bytes if and only if the command fits an int with its terminator |
| `Command.BulksAgree` | hiredis-master/hiredis.c:477-566 | cutting lengths to 32 bits is harmless if and only if every argument is shorter than 2^32 |
| `Command.ArgumentInside` | hiredis-master/hiredis.c:553-560 | no argument is longer than the command |
| `Command.DecimalLineInjective` | hiredis-master/hiredis.c:552-555 | two number lines in front of anything are equal only for equal numbers |
| `Command.WideCount` | hiredis-master/read.c:317-361 | an announced count beyond an int is taken for its low 32 bits; where these are no count of children the parser stops, and the inputs for that |
| `Arguments.StrChr` | hiredis-master/async.c:568-575 | the first occurrence before the terminator, or none |
| `Arguments.Strtol` | hiredis-master/async.c:573 | the digits up to CR as a number |
| `Arguments.NextArgument` | hiredis-master/async.c:566-578 | the next argument and the position after it, or none at the end of the command |
| `Arguments.TakeArgument` | hiredis-master/async.c:573-577 | the argument at a dollar sign: its bytes and what follows it |
| `Arguments.ArgumentAt` | hiredis-master/async.c:573-577 | everything the scanner looks at behind a dollar sign: digits, line end, argument and continuation |
| `Arguments.ArgumentLayout` | hiredis-master/async.c:566-578 | no CR or NUL can occur between the dollar sign and the end of the length line |
| `Arguments.AllArguments` | hiredis-master/async.c:566-578 | a command is made if and only if it fits an int with its terminator, and then repeated calls return exactly its arguments, whatever their bytes, then none |
| `Arguments.Walk` | hiredis-master/async.c:566-578 | walking over any formatted command returns its arguments in order |
| `FormatString.HolesOfWords` | hiredis-master/hiredis.c:231-251 | splitting a format into words keeps every conversion |
| `FormatString.StepGap` | hiredis-master/hiredis.c:232-245 | a space ends the current argument, or does nothing between arguments |
| `FormatString.StepPiece` | hiredis-master/hiredis.c:246-274 | any other piece extends the current argument by its text |
| `FormatString.NextFormatPiece` | hiredis-master/hiredis.c:231-274 | the scanner takes the same pieces as the reading of the format |
| `FormatString.AddArgument` | hiredis-master/hiredis.c:382-391 | a finished argument is appended and the int total grows by its printed size |
| `FormatString.CollectArguments` | hiredis-master/hiredis.c:226-391 | the argument list is the words of the format with their conversions filled in; the int total is their printed size converted to int |
| `FormatString.VFormatCommand` | hiredis-master/hiredis.c:210-417 | for literals, %s, %b and %%: the result is the command of the filled-in words, if and only if it fits an int with its terminator |
| `FormatString.FormatWords` | hiredis-master/hiredis.c:210-417 | formats written as words of plain bytes, doubled percent signs, %s and %b, with any blanks around them: the command has one argument for each word, with each conversion replaced by its argument, in order |
| `FormatString.ReadMark` | hiredis-master/hiredis.c:231-274 | %s and %b take an argument, %% is a percent sign, any other byte stands for itself |
| `FormatString.ReadWords` | hiredis-master/hiredis.c:226-391 | the words of a written format are the words that were written |
| `FormatString.FillAllIs` | hiredis-master/hiredis.c:246-274 | filling them in replaces each conversion by its argument, in order |
| `FormatString.LastPercent` | hiredis-master/hiredis.c:231-232 | a percent sign at the very end stands for itself |
| `FormatString.ArgumentCount` | hiredis-master/hiredis.c:226-391 | the number of arguments depends on the format alone |
| `Sds.ReqType` | hiredis-master/sds.c:57-70 | the chosen header can hold the size |
| `Sds.Preallocated` | hiredis-master/sds.c:206-210 | growth asks for at least the size and at most one megabyte more |
| `Sds.Kept` | hiredis-master/sds.c:712-734 | what sdsrange can see of a string: all of it if its length fits an int |
| `Sds.IntIndex` | hiredis-master/sds.c:716-723 | an index counted from the end, in int arithmetic |
| `Sds.Span` | hiredis-master/sds.c:724-731 | the number of kept bytes in int arithmetic, which is right below the largest int |
| `Sds.RangeBounds` | hiredis-master/sds.c:713-734 | the int arithmetic keeps exactly the slice of the visible part, for any signs, overlaps and lengths |
| `Sds.SliceBytes` | hiredis-master/sds.c:712-738 | the bytes a slice keeps for indexes from the front, from the end and outside the string |
| `Sds.RangeIff` | hiredis-master/sds.c:712-738 | sdsrange keeps every slice it can be asked for if and only if the length fits an int |
| `Sds.LostText` | hiredis-master/sds.c:712-738 | on a string of 2^31 bytes dropping the first byte drops all |
| `Sds.SdsString.SetLen` | hiredis-master/sds.h:129-151 | the stored length is cut to the header's width |
| `Sds.SdsString.SetAlloc` | hiredis-master/sds.h:196-215 | the stored allocation is cut to the header's width; the smallest header has none |
| `Sds.SdsString.NewLen` | hiredis-master/sds.c:81-135 | a new string holds its bytes and terminator and its header fits |
| `Sds.SdsString.Relocate` | hiredis-master/sds.c:219-237 | moving to another header or area keeps the text |
| `Sds.SdsString.MakeRoomFor` | hiredis-master/sds.c:194-238 | room for the asked bytes, text unchanged, area untouched when there is room and preallocated otherwise |
| `Sds.SdsString.RemoveFreeSpace` | hiredis-master/sds.c:245-270 | no free space is left and the text is unchanged |
| `Sds.SdsString.CatLen` | hiredis-master/sds.c:376-386 | append |
| `Sds.SdsString.CpyLen` | hiredis-master/sds.c:405-414 | replace the text |
| `Sds.SdsString.GrowZero` | hiredis-master/sds.c:358-370 | extend with zero bytes, or leave a long enough string alone |
| `Sds.SdsString.KeepPart` | hiredis-master/sds.c:735-737 | move a part to the front and cut |
| `Sds.SdsString.Range` | hiredis-master/sds.c:712-738 | keep the slice of the visible part between two indexes counted from either end |
| `Sds.SdsString.Clear` | hiredis-master/sds.c:183-186 | empty text, area kept |
| `Sds.Run` | hiredis-master/sds.c:57-414 | any sequence of operations leaves the text of the byte-sequence model, with length, allocation, header capacity and terminator in order; cutting does what sdsrange does at every length |
| `Decimal.Dec` | hiredis-master/sds.c:461-487 | decimal text: non-empty and digits only |
| `Decimal.DecDigit` | hiredis-master/sds.c:461-487 | digit k from the right is the k-th decimal digit of the number, and there is no leading zero |
| `Decimal.Dec64` | hiredis-master/sds.c:428-487 | 64-bit numbers have at most 20 digits, magnitudes of signed ones at most 19 |
| `Decimal.DecLength` | hiredis-master/sds.c:428-487 | a number below a power of ten has no more digits than its exponent |
| `Decimal.ReadDec` | hiredis-master/read.c:148-173 | reading the digits of a number gives the number, in front of anything |
| `Decimal.ReadText` | hiredis-master/read.c:148-173 | reading back the text of any integer followed by CR gives the integer, cut to 64 bits |
| `Decimal.NoOverflow` | hiredis-master/read.c:161-170 | no intermediate value of the digit loop exceeds the number |
| `Decimal.RunStep` | hiredis-master/read.c:161-170 | one more digit multiplies the accumulator by ten and adds the digit; anything else ends the digits |
| `Decimal.RunOfDec` | hiredis-master/read.c:161-170 | the digits of a line that starts with a printed number are the digits of the number |
| `Decimal.ReadDigits` | hiredis-master/read.c:161-170 | the digit loop in wrapping 64 bits gives the number spelled by the digits, cut to 64 bits, and tells exactly when the accumulator overflows |
| `Decimal.ReadLongLong` | hiredis-master/read.c:148-173 | sign and digits up to CR, cut to 64 bits, or -1 for a malformed number; tells exactly when a value on the way exceeds 64 bits |
| `Decimal.CountDigits` | hiredis-master/hiredis.c:193-203 | the digit count equals the length of the printed number |
| `Decimal.DecFour` | hiredis-master/hiredis.c:193-203 | four digits are removed by each division by 10000 |
| `Decimal.ReversePrefix` | hiredis-master/sds.c:448-456 | the in-place reversal reverses exactly the prefix |
| `Decimal.PutDigits` | hiredis-master/sds.c:434-441 | the digit loop writes the number backwards |
| `Decimal.Ull2Str` | hiredis-master/sds.c:461-487 | unsigned 64-bit numbers print as their decimal text with terminator inside 21 bytes |
| `Decimal.Ll2Str` | hiredis-master/sds.c:429-458 | every signed 64-bit number prints as its text with terminator inside 21 bytes |
| `Decimal.PrintAndRead` | hiredis-master/sds.c:429-458 | every 64-bit number, printed and read back, is the same number, in at most 20 bytes; the reader's accumulator overflows on the way exactly for the smallest number |
| `Decimal.PrintAndCount` | hiredis-master/hiredis.c:193-203 | the digits counted for a length are exactly the bytes printed for it |
| `SdsFormat.Put` | hiredis-master/sds.c:592-611 | one literal or conversion is written at the int position, the end of the text, with room made for it |
| `SdsFormat.Convert` | hiredis-master/sds.c:598-652 | each conversion prints its argument |
| `SdsFormat.NextPiece` | hiredis-master/sds.c:586-659 | one step of the format loop prints the first piece of the expansion |
| `SdsFormat.CatFmt` | hiredis-master/sds.c:579-665 | the format's expansion is appended and terminated if and only if the resulting length fits an int |
| `SdsFormat.ExpandFirst` | hiredis-master/sds.c:586-659 | what each conversion letter prints, and that a percent sign before anything else is dropped |
| `Repr.HexDigit` | hiredis-master/sds.c:883-910 | a digit read back as hexadecimal is the value it was made from |
| `Repr.CatRepr` | hiredis-master/sds.c:856-879 | the quoted form is appended |
| `Repr.ScanQuoted` | hiredis-master/sds.c:948-982 | whatever byte was quoted, the scanner reads that byte and takes all of its quoted form |
| `Repr.ReadBody` | hiredis-master/sds.c:948-982 | inside quotes the printed text of a string reads back as the string |
| `Repr.ReadPrinted` | hiredis-master/sds.c:941-1019 | a printed string in front of a blank or the end is one token |
| `Repr.GetToken` | hiredis-master/sds.c:941-1019 | the scanning loop reads the token of the reference and stops behind it |
| `Repr.SkipBlanks` | hiredis-master/sds.c:938-939 | blanks before a token do not matter |
| `Repr.SplitArgs` | hiredis-master/sds.c:931-1039 | the splitter returns the words of the line, or fails on unbalanced quotes |
| `Repr.SplitJoin` | hiredis-master/sds.c:856-1039 | printing any list of byte strings and splitting the line gives the list back |
| `Repr.PrintAndSplit` | hiredis-master/sds.c:856-1039 | the same for the two routines working on a dynamic string |
| `Repr.QuotedBytes` | hiredis-master/sds.c:856-878 | how every byte is printed between quotes, byte by byte |
| `Repr.PrintedMore` | hiredis-master/sds.c:856-878 | a printed string is its bytes printed one after the other between quotes |
| `Repr.ScanEscapes` | hiredis-master/sds.c:948-972 | what each backslash sequence stands for |
| `Repr.ReadBare` | hiredis-master/sds.c:998-1016 | an unquoted word reads as itself up to white space |
| `Repr.ReadTicked` | hiredis-master/sds.c:983-997 | text in single quotes reads as itself, a single quote behind a backslash |
| `Repr.SplitWords` | hiredis-master/sds.c:931-1030 | words written bare, in quotes or in single quotes, with any white space between them, split to their texts |
| `Repr.OpenQuote` | hiredis-master/sds.c:973-997 | a quote that is never closed spoils the line |
| `OutputBuffer.Output.constructor` | hiredis-master/hiredis.c:592-607 | nothing written, nothing pending |
| `OutputBuffer.Output.AppendCommand` | hiredis-master/hiredis.c:907-918 | the command joins the pending bytes, or the context reports lack of memory exactly when they would not fit |
| `OutputBuffer.Output.BufferWrite` | hiredis-master/hiredis.c:831-858 | the step of the connection: what the socket takes leaves the front of the buffer, done if nothing is pending |
| `OutputBuffer.Output.Remove` | hiredis-master/hiredis.c:847-854 | written bytes are cut from the front with sdsrange, with a fresh buffer when all were written |
| `OutputBuffer.AfterWriteIff` | hiredis-master/hiredis.c:847-854 | cutting keeps exactly the unwritten bytes if and only if the buffer's length fits an int or nothing was written |
| `OutputBuffer.NextAccounted` | hiredis-master/hiredis.c:831-918 | a step that cuts no buffer longer than an int keeps written and pending bytes together equal to the accepted ones, and reports done exactly when all is written |
| `OutputBuffer.NextMissing` | hiredis-master/hiredis.c:847-854 | a write that takes bytes from a buffer longer than an int loses some, and no step ever brings lost bytes back |
| `OutputBuffer.Conserved` | hiredis-master/hiredis.c:831-918 | over any run: written and pending bytes are the accepted commands in order if and only if no write takes bytes from a buffer longer than an int; otherwise bytes are missing for ever |
| `OutputBuffer.DoneExactly` | hiredis-master/hiredis.c:831-858 | in such a run a write reports done exactly when everything accepted so far has been written |
| `OutputBuffer.StepBytes` | hiredis-master/hiredis.c:831-918 | each step of a run in numbers: a write takes as many bytes as the socket reports or all that are pending, a command is accepted whole or not at all, and the verdict and the error code of each |
| `OutputBuffer.Run` | hiredis-master/hiredis.c:831-918 | any run of appends and writes goes through exactly the states and verdicts described; its bytes are conserved if and only if no write takes bytes from a buffer longer than an int |
| `CallbackList.Queue.Push` | hiredis-master/async.c:227-247 | the new node is last and the list stays well linked |
| `CallbackList.Queue.Shift` | hiredis-master/async.c:249-263 | the oldest callback, or nothing from an empty list |
| `CallbackList.Queue.IsEmpty` | hiredis-master/async.c:360 | a null head means an empty queue |
| `AsyncTrace.ConsumeFront` | hiredis-master/async.c:249-263 | moving the front entry into the history keeps history and queue together |
| `AsyncTrace.MatchFront` | hiredis-master/async.c:437-479 | handing the next reply to the next entry keeps replies and entries matched |
| `AsyncTrace.LogSnoc` | hiredis-master/async.c:583-648 | what one more act or error does to the commands accepted, their bytes and the closing of the context |
| `AsyncTrace.ClosedIff` | hiredis-master/async.c:323-362 | a context is closed by any error, disconnect or free, and asked to be freed by any free |
| `AsyncTrace.NotesSplit` | hiredis-master/async.c:265-283 | the acts of a row of callbacks are those of its first ones followed by those of the others |
| `AsyncTrace.NotesBooked` | hiredis-master/async.c:265-283 | a row of callbacks adds its own acts, each callback's in script order, and nothing from outside and no error |
| `AsyncTrace.AnsweredTrans` | hiredis-master/async.c:411-489 | replies handled in two goes are handled in one |
| `AsyncTrace.AnsweredOne` | hiredis-master/async.c:437-486 | handing one reply to one entry |
| `AsyncTrace.ReadDone` | hiredis-master/async.c:411-489 | handling replies and what it leads to make up what a read event does |
| `AsyncTrace.FreedIff` | hiredis-master/async.c:275-562 | an event frees a context if and only if a read or write fails, the user frees it or disconnects with nothing outstanding, a callback asked for it, an error comes that nobody waits for, the stream is broken, or a disconnect has nothing to wait for any longer; it is stuck exactly in front of another reply that nobody waits for |
| `AsyncTrace.TornBooked` | hiredis-master/async.c:275-349 | a teardown adds the acts of exactly the callbacks that were due, and an error exactly if there was one |
| `AsyncTrace.StepBooked` | hiredis-master/async.c:227-648 | an event adds its own act, an error exactly for the reasons that are errors, and the acts of exactly the callbacks that were due |
| `AsyncTrace.UserLaws` | hiredis-master/async.c:323-362 | a command is only noted; a free ends the context; a disconnect ends it if and only if every command accepted has had its callback |
| `AsyncTrace.SocketLaws` | hiredis-master/async.c:516-562 | as many bytes of the accepted commands leave as the socket took, or all that were left; a failed read or write ends the context |
| `AsyncTrace.ReadLaws` | hiredis-master/async.c:411-489 | after a read the context goes on only if every reply was handled, the bytes are all replies, and it is not closed with every command answered and every byte sent; it ends for a callback that asked for it, an error nobody waits for, a broken stream, or because it is |
| `Async.Context.constructor` | hiredis-master/async.c:105-140 | a connected context to which nothing has happened |
| `Async.Context.AsyncCommand` | hiredis-master/async.c:583-648 | accepted, queued last and sent if and only if the context is not closing; noted either way |
| `Async.Context.Append` | hiredis-master/async.c:590-642 | the command's bytes join the output if and only if the context is not closing |
| `Async.Context.RunCallback` | hiredis-master/async.c:265-272 | the callback does exactly the acts of its script, in order; the context is marked for freeing exactly if one of them asks for it, and nothing is accepted once closing |
| `Async.Context.UserCode` | hiredis-master/async.c:265-272 | all acts inside a callback, in order, none of which tears the context down there |
| `Async.Context.DoAct` | hiredis-master/async.c:323-362 | one act inside a callback is noted as its own and never tears the context down |
| `Async.Context.AsyncFree` | hiredis-master/async.c:323-328 | freed at once outside a callback, only marked inside one |
| `Async.Context.AsyncDisconnect` | hiredis-master/async.c:357-362 | torn down at once if and only if no callback runs and nothing is outstanding |
| `Async.Context.DropNext` | hiredis-master/async.c:281-283 | the next entry is consumed without a reply |
| `Async.Context.ShiftEntry` | hiredis-master/async.c:249-263 | the oldest entry moves from the queue into the history |
| `Async.Context.DrainCallbacks` | hiredis-master/async.c:281-283 | the drain loop terminates with every entry consumed once, in order and without a reply, and with exactly the acts of their callbacks |
| `Async.Context.FreeContext` | hiredis-master/async.c:275-317 | the teardown described in AsyncTrace: the queue is empty, every waiting callback has run once, and the disconnect callback was told the right status |
| `Async.Context.CleanUp` | hiredis-master/async.c:303-316 | the disconnect callback hears that all went well if and only if there was no error or somebody asked for the free |
| `Async.Context.DisconnectContext` | hiredis-master/async.c:331-349 | reached without an error only with an empty queue, so the assertion in it holds; with an error the context stops accepting first |
| `Async.Context.Fail` | hiredis-master/async.c:331-349 | a disconnect because of an error is a teardown with the error noted |
| `Async.Context.TakeAnswer` | hiredis-master/async.c:437-466 | the reply goes to the oldest entry; without one it is a reply nobody waits for |
| `Async.Context.Answer` | hiredis-master/async.c:437-486 | one reply is handed to the next entry and its callback acts; handling stops exactly if the callback asked for the free or nobody waits for the reply |
| `Async.Context.Unsolicited` | hiredis-master/async.c:439-466 | a reply nobody waits for ends the context if it is an error, and otherwise meets the code's assertion |
| `Async.Context.Reply` | hiredis-master/async.c:468-486 | the callback of a reply runs, and a free it asked for is carried out |
| `Async.Context.ProcessCallbacks` | hiredis-master/async.c:411-489 | the replies at hand are handed to the next entries in order until handling stops or none is left, and then what that leads to |
| `Async.Context.EndOfReplies` | hiredis-master/async.c:418-435 | with every reply handled, a teardown with an error if the stream is broken, a clean one if a disconnect has nothing to wait for, and otherwise nothing |
| `Async.Context.HandleRead` | hiredis-master/async.c:516-535 | read events: arriving replies are handled in order until one stops it, with the consequence of that; a failed read is a teardown with an error |
| `Async.Context.HandleWrite` | hiredis-master/async.c:537-562 | write events: exactly the front of the output leaves; a failed write is a teardown with an error |
| `AsyncSession.PerformAct` | hiredis-master/async.c:323-362 | a user act from outside a callback does exactly what is described: a command is noted, a free tears down, a disconnect tears down if and only if nothing is outstanding |
| `AsyncSession.PerformRead` | hiredis-master/async.c:516-535 | bytes read: exactly the replies they complete arrive and are handled as described, and the reader stands behind them |
| `AsyncSession.Perform` | hiredis-master/async.c:516-562 | each event does exactly what is described of it |
| `AsyncSession.Books` | hiredis-master/async.c:227-648 | between events the books balance: accepted commands, bytes sent, replies matched and what the disconnect callback was told |
| `AsyncSession.Booked` | hiredis-master/async.c:227-648 | in any run the acts from outside are noted in order, every callback of a consumed entry acts once and as its script says, and a context is freed, or its connection broken, if and only if the last event caused it |
| `AsyncSession.LastEvent` | hiredis-master/async.c:411-562 | the same seen on the context's own flags, queue and output buffer after any run |
| `AsyncSession.Reached` | hiredis-master/async.c:516-535 | what has arrived after any number of events are the replies in the bytes read so far |
| `AsyncSession.Serve` | hiredis-master/async.c:516-562 | one more event of a run |
| `AsyncSession.Run` | hiredis-master/async.c:227-648 | over any run on any bytes, event by event: the replies that have arrived are those of the recursive parse of the bytes read so far and have gone to the commands in order, each write event sends exactly the front of the output, callbacks act exactly when their entries are consumed and as their scripts say, and commands are accepted in the order tried until the context is closing; a disconnect that has nothing to wait for any longer is carried out by the next read, and only then without an error; the context is freed if and only if the last event caused it; entries without a reply exist only then; the disconnect callback runs exactly once, at the end, with the right status |
| `HashTable.NextPower` | hiredis-master/dict.c:306-315 | the least power of two at or above the size and at least 4; a power of two is returned as it is |
| `HashTable.ManyBuckets` | hiredis-master/dict.c:306-337 | 2^31 buckets is a power of two |
| `HashTable.Dict.constructor` | hiredis-master/dict.c:72-86 | an empty table |
| `HashTable.Dict.Search` | hiredis-master/dict.c:248-255 | the walk of a bucket finds the entry of a key if there is one anywhere in the table |
| `HashTable.Dict.Find` | hiredis-master/dict.c:243-256 | the entry of a key, or null exactly when the map has none |
| `HashTable.Dict.Sized` | hiredis-master/dict.c:97-101 | an array of empty buckets of power-of-two size |
| `HashTable.Dict.PushFront` | hiredis-master/dict.c:118-120 | a node linked in front of its bucket keeps placement, unique keys and links |
| `HashTable.MoveStep` | hiredis-master/dict.c:111-124 | the next node to move is new to the target table and in no later bucket |
| `HashTable.Dict.MoveNode` | hiredis-master/dict.c:116-121 | moving one node keeps the half-emptied and the half-filled table in order and the count right |
| `HashTable.Dict.MoveBucket` | hiredis-master/dict.c:107-125 | the bucket loop, which saves the successor first, moves every node of the bucket |
| `HashTable.Dict.AllMoved` | hiredis-master/dict.c:106-126 | leaving the loop early because the count is zero loses no entry, and running to the end leaves the count zero |
| `HashTable.Dict.MoveAll` | hiredis-master/dict.c:106-126 | all nodes are in the new table and the asserted zero count holds |
| `HashTable.Dict.Adopt` | hiredis-master/dict.c:129-131 | the filled table becomes the table |
| `HashTable.Dict.Expand` | hiredis-master/dict.c:88-132 | refused exactly when too small; otherwise the contents are unchanged in a power-of-two table |
| `HashTable.Dict.ExpandIfNeeded` | hiredis-master/dict.c:295-303 | afterwards there is room; a full table is exactly doubled |
| `HashTable.Dict.KeyIndex` | hiredis-master/dict.c:320-337 | -1 exactly for a key that is present, otherwise the bucket of the key in the grown table, which fits an int |
| `HashTable.Dict.Insert` | hiredis-master/dict.c:143-153 | a new entry extends the map |
| `HashTable.Dict.Add` | hiredis-master/dict.c:135-154 | added exactly when the key was absent; the map is extended or unchanged |
| `HashTable.Dict.Replace` | hiredis-master/dict.c:160-179 | the map is updated; reports whether the key was new |
| `HashTable.LinkDrop` | hiredis-master/dict.c:194-199 | pointing the predecessor past a node takes exactly that node out of its list |
| `HashTable.Dict.Bypass` | hiredis-master/dict.c:194-199 | the bucket of the node loses it, every other bucket is untouched |
| `HashTable.Dict.Unlink` | hiredis-master/dict.c:192-204 | one entry leaves table, count and map |
| `HashTable.Dict.Delete` | hiredis-master/dict.c:182-210 | removed exactly when present; the map loses the key and nothing else |
| `HashTable.UsedIsSize` | hiredis-master/dict.c:88-210 | the count of the table is the size of the map |
| `HashTable.Perform` | hiredis-master/dict.c:88-256 | each operation acts and answers as on a finite map |
| `HashTable.OneMore` | hiredis-master/dict.c:88-256 | one more operation of a run in plain terms: what it answers and what it leaves in the map |
| `HashTable.Run` | hiredis-master/dict.c:88-337 | any sequence of add, replace, delete and find on a new table answers as a finite map does, across every rehash |
| `HashIterator.FlatMembers` | hiredis-master/dict.c:268-286 | bucket order lists every entry of the later buckets once |
| `HashIterator.HugeTable` | hiredis-master/dict.c:270-273 | a power-of-two size beyond an int converts to zero or less |
| `HashIterator.VisibleNodes` | hiredis-master/dict.c:268-286 | an iterator will return every entry once if the size fits an int |
| `HashIterator.SparedKeys` | hiredis-master/dict.c:182-210 | what a sweep spares are the entries not chosen, with their values |
| `HashIterator.FlatOrdered` | hiredis-master/dict.c:268-286 | entries come bucket by bucket, from the first to the last |
| `HashIterator.Iterator.constructor` | hiredis-master/dict.c:258-266 | all entries are still to come |
| `HashIterator.Iterator.Advance` | hiredis-master/dict.c:270-277 | the saved successor, or the next bucket after the end of one |
| `HashIterator.Iterator.Next` | hiredis-master/dict.c:268-286 | returns exactly the first of the entries still to come, or null when there is none |
| `HashIterator.Iterator.DeleteCurrent` | hiredis-master/dict.c:182-210 | deleting the entry just returned leaves the entries still to come unchanged |
| `HashIterator.Sweep` | hiredis-master/dict.c:182-286 | iterating while deleting any chosen entries visits every entry present at the start once and in bucket order and leaves the map without the chosen keys, if the table's size fits an int; a larger table is not visited at all |
| `FcgiRecord.HeaderRoundTrip` | fcgi/libfcgi/fcgiapp.c:1201-1219 | every field of a header reads back |
| `FcgiRecord.MakeHeader` | fcgi/libfcgi/fcgiapp.c:1201-1219 | version 1, the type, the request id and the content length in two bytes each with the high one first, the padding length and a zero |
| `FcgiRecord.HeaderFields` | fcgi/libfcgi/fcgiapp.c:1595-1598 | a reader takes id and content length from two bytes each, the high one first |
| `FcgiRecord.EncodeLayout` | fcgi/libfcgi/fcgiapp.c:1397-1412 | header, content and padding of a record sit where a reader looks for them |
| `FcgiRecord.RecordOnWire` | fcgi/libfcgi/fcgiapp.c:1201-1220 | the bytes of a record, one by one |
| `FcgiRecord.EndRequestBody` | fcgi/libfcgi/fcgiapp.c:1230-1243 | the exit status in four bytes with the high one first, the protocol status, and three zeros |
| `FcgiRecord.EncodeAppend` | fcgi/libfcgi/fcgiapp.c:1386-1430 | a concatenation of record lists encodes to the concatenation |
| `FcgiRecord.DecodeEncodeAll` | fcgi/libfcgi/fcgiapp.c:1201-1219 | any list of well-formed records decodes to itself |
| `FcgiRecord.AlignInt8Spec` | fcgi/libfcgi/fcgiapp.c:1272-1274 | the next multiple of eight |
| `FcgiWriter.PaddingFits` | fcgi/libfcgi/fcgiapp.c:1397-1412 | padded content always fits an aligned buffer |
| `FcgiWriter.Request.WriteItAll` | fcgi/libfcgi/fcgiapp.c:1362-1374 | bytes are appended to the connection |
| `FcgiWriter.Writer.constructor` | fcgi/libfcgi/fcgiapp.c:1754-1809 | buffer size and alignment leave room for a header and content within the record limit |
| `FcgiWriter.Writer.Frame` | fcgi/libfcgi/fcgiapp.c:1397-1412 | the pending content in the buffer becomes one whole record; nothing pending becomes nothing |
| `FcgiWriter.Writer.WriteBuffer` | fcgi/libfcgi/fcgiapp.c:1416-1429 | the buffer leaves for the connection |
| `FcgiWriter.Writer.EmptyBuff` | fcgi/libfcgi/fcgiapp.c:1386-1430 | emptying adds one data record of the pending bytes, or none, and keeps the wire equal to the encoded records |
| `FcgiWriter.Writer.PutSome` | fcgi/libfcgi/fcgiapp.c:327-336 | as much of the string as fits |
| `FcgiWriter.Writer.Advance` | fcgi/libfcgi/fcgiapp.c:327-336 | putting a part extends the text taken so far |
| `FcgiWriter.Writer.MakeRoom` | fcgi/libfcgi/fcgiapp.c:337-339 | emptying a full buffer leaves the text taken so far unchanged and makes room |
| `FcgiWriter.Writer.PutStr` | fcgi/libfcgi/fcgiapp.c:310-341 | whatever the buffer size, the records sent plus the pending bytes are the text; a closed stream takes nothing |
| `FcgiWriter.Writer.PutChar` | fcgi/libfcgi/fcgiapp.c:282-293 | the same for one byte |
| `FcgiWriter.EncodeEnd` | fcgi/libfcgi/fcgiapp.c:1347-1356 | the end record on the wire |
| `FcgiWriter.Writer.WriteCloseRecords` | fcgi/libfcgi/fcgiapp.c:1326-1358 | the end-of-stream record, except on an unused error stream, and the end of the request from the last writer only |
| `FcgiWriter.Writer.FFlush` | fcgi/libfcgi/fcgiapp.c:887-893 | nothing stays pending |
| `FcgiWriter.Writer.FClose` | fcgi/libfcgi/fcgiapp.c:912-929 | pending data, end-of-stream and, for the last writer, end-of-request, in this order; closing twice does nothing |
| `FcgiSession.FedPair` | fcgi/libfcgi/fcgiapp.c:310-341 | a put on one stream leaves the other stream's records and the request invariant alone |
| `FcgiSession.PutOn` | fcgi/libfcgi/fcgiapp.c:310-341 | a put on either stream keeps the invariant of both |
| `FcgiSession.PutByteOn` | fcgi/libfcgi/fcgiapp.c:282-293 | a byte put on either stream keeps the invariant of both |
| `FcgiSession.FlushOn` | fcgi/libfcgi/fcgiapp.c:887-893 | a flush of either stream keeps the invariant of both |
| `FcgiSession.EndedParts` | fcgi/libfcgi/fcgiapp.c:1326-1358 | the closed stream's records hold exactly the bytes put and end as required |
| `FcgiSession.ClosingRecords` | fcgi/libfcgi/fcgiapp.c:1326-1358 | the records of a close: one stream ended, the other untouched, end-of-request exactly from the last |
| `FcgiSession.CloseOn` | fcgi/libfcgi/fcgiapp.c:912-929 | closing either stream, first or second, keeps the invariant of both |
| `FcgiSession.SetStatus` | fcgi/libfcgi/fcgiapp.c:2305-2309 | the exit status set last is the one the end record carries |
| `FcgiSession.Perform` | fcgi/libfcgi/fcgiapp.c:282-929 | any operation on either stream keeps the invariant of the session |
| `FcgiSession.StartSession` | fcgi/libfcgi/fcgiapp.c:1754-1809 | two writers of any buffer sizes on one request |
| `FcgiSession.FinishSession` | fcgi/libfcgi/fcgiapp.c:2002-2021 | closing what is open ends both streams, the output last, and the request |
| `FcgiSession.RunRequest` | fcgi/libfcgi/fcgiapp.c:310-1430 | any operations on the two streams of a request: the wire is records of the request, padded to eight bytes, that carry the bytes put on streams 6 and 7 in order, an empty record at the end of each, of the error stream only if it carried anything, and as its last sixteen bytes the end record with id and exit status |
| `FcgiSession.OneMore` | fcgi/libfcgi/fcgiapp.c:282-354 | what one more operation means: bytes go to the end of their stream unless it was closed before, and a status counts until both streams are closed |
| `FcgiSession.StillOpen` | fcgi/libfcgi/fcgiapp.c:912-940 | a stream is open until it is closed |
| `FcgiSession.LastBytes` | fcgi/libfcgi/fcgiapp.c:1230-1243 | the last sixteen bytes of a finished request |
| `FcgiInput.TakeContent` | fcgi/libfcgi/fcgiapp.c:1649-1663 | content may be taken in any portions |
| `FcgiInput.TakePadding` | fcgi/libfcgi/fcgiapp.c:1668-1675 | padding may be passed in any portions |
| `FcgiInput.HeaderComplete` | fcgi/libfcgi/fcgiapp.c:1688-1696 | a header collected in pieces is a header |
| `FcgiInput.PassRecord` | fcgi/libfcgi/fcgiapp.c:1624-1742 | one record on the input: delivered, skipped or refused |
| `FcgiInput.OwnRead` | fcgi/libfcgi/fcgiapp.c:1588-1613 | a record of the stream byte by byte: content is delivered, an empty record ends the stream, another stream of the request is error -3 |
| `FcgiInput.OtherRead` | fcgi/libfcgi/fcgiapp.c:1588-1613 | content of another request is skipped |
| `FcgiInput.BeginRead` | fcgi/libfcgi/fcgiapp.c:1527-1555 | an attempt to begin a request is answered with the bytes of a refusal and skipped, or is error -3 |
| `FcgiInput.HeaderRefused` | fcgi/libfcgi/fcgiapp.c:1588-1595 | another version is error -2, and an end inside a header error -3 |
| `FcgiInput.OwnMore` | fcgi/libfcgi/fcgiapp.c:1624-1742 | the content of a stream is that of its own records in order |
| `FcgiInput.StreamDelivers` | fcgi/libfcgi/fcgiapp.c:1624-1742 | what a stream of own and foreign records delivers, how it ends and which requests it refuses |
| `FcgiInput.SurvivingOrNot` | fcgi/libfcgi/fcgiapp.c:1649-1663 | the delivered bytes are the own content exactly when no own record is swallowed |
| `FcgiInput.IntactIff` | fcgi/libfcgi/fcgiapp.c:1624-1742 | the reader delivers all of the stream's content if and only if no empty foreign record stands directly before an own record; in both cases it ends in EOF |
| `FcgiInput.LostByte` | fcgi/libfcgi/fcgiapp.c:1649-1725 | a two-record input on which a byte is lost |
| `FcgiInput.SwitchIff` | fcgi/libfcgi/fcgiapp.c:1845-1857 | unpadded, a switch of stream type is invisible; padding that does not start like a header makes the next stream fail at once |
| `FcgiReader.Reader.constructor` | fcgi/libfcgi/fcgiapp.c:1754-1809 | everything the input delivers is still ahead |
| `FcgiReader.Reader.SetError` | fcgi/libfcgi/fcgiapp.c:942-952 | the first error sticks and the stream is closed |
| `FcgiReader.Reader.ReadMore` | fcgi/libfcgi/fcgiapp.c:1632-1644 | any non-empty portion of the input leaves what is ahead unchanged; input that ends early is a protocol error |
| `FcgiReader.Reader.GiveContent` | fcgi/libfcgi/fcgiapp.c:1649-1654 | content at hand becomes the readable window |
| `FcgiReader.Reader.SkipContent` | fcgi/libfcgi/fcgiapp.c:1649-1663 | content of a skipped record is passed over |
| `FcgiReader.Reader.PassPadding` | fcgi/libfcgi/fcgiapp.c:1668-1675 | padding is passed over |
| `FcgiReader.Reader.PassHeader` | fcgi/libfcgi/fcgiapp.c:1688-1696 | header bytes are collected in any portions |
| `FcgiReader.Reader.ProcessHeader` | fcgi/libfcgi/fcgiapp.c:1588-1613 | a complete header is classified as the reference says, with the refusal of a second request written |
| `FcgiReader.Reader.HandleHeader` | fcgi/libfcgi/fcgiapp.c:1701-1740 | the fill loop ends or goes on as the reference says |
| `FcgiReader.Reader.FillStep` | fcgi/libfcgi/fcgiapp.c:1631-1741 | each round of the fill loop delivers, ends or consumes input, and what is ahead stays the same |
| `FcgiReader.Reader.FillHeader` | fcgi/libfcgi/fcgiapp.c:1688-1741 | collecting and acting on a header keeps what is ahead |
| `FcgiReader.Reader.FillBuffProc` | fcgi/libfcgi/fcgiapp.c:1624-1742 | filling never changes what is ahead, and terminates with bytes to read or a closed stream |
| `FcgiReader.Reader.SetReaderType` | fcgi/libfcgi/fcgiapp.c:1845-1857 | the same reader goes on with the unread bytes as a stream of another type |
| `FcgiReader.Reader.Take` | fcgi/libfcgi/fcgiapp.c:153-168 | bytes handed out come off the front of what is ahead |
| `FcgiReader.Reader.GetChar` | fcgi/libfcgi/fcgiapp.c:108-126 | the next byte, or -1 exactly when nothing is ahead |
| `FcgiReader.Reader.GetStr` | fcgi/libfcgi/fcgiapp.c:143-181 | the next n bytes; fewer only at the end |
| `FcgiReader.AskOnce` | fcgi/libfcgi/fcgiapp.c:108-181 | a request gets as many bytes of what is ahead as it asks for, and falls short exactly when there are fewer |
| `FcgiReader.ReadMix` | fcgi/libfcgi/fcgiapp.c:108-181 | for every fragmentation and every mix of requests, exactly the first bytes of the content, as many as were asked for in all; a request falls short exactly when that is more than there is |
| `FcgiReader.AskedMore` | fcgi/libfcgi/fcgiapp.c:108-181 | how many bytes requests ask for |
| `FcgiReader.ReadRecords` | fcgi/libfcgi/fcgiapp.c:108-181 | own and foreign records through a buffer of any size and any mix of requests: as many bytes of the delivered content as were asked for, which is the content of the own records if and only if no empty foreign record stands directly before an own one; then end of stream without an error |
| `FcgiParams.LenBytes` | fcgi/cgi-fcgi/cgi-fcgi.c:556-582 | lengths below 128 are one byte; others four, high byte first, with the top bit set, whose value is the length |
| `FcgiParams.ParseLen` | fcgi/libfcgi/fcgiapp.c:1149-1156 | the length spelled by one byte below 128 or by four with the top bit set, high byte first; missing exactly if these are not there |
| `FcgiParams.LenRoundTrip` | fcgi/cgi-fcgi/cgi-fcgi.c:556-582 | every length below 2^31 reads back, in front of anything |
| `FcgiParams.PairRoundTrip` | fcgi/cgi-fcgi/cgi-fcgi.c:556-582 | every name and value read back as one entry |
| `FcgiParams.EntryRoundTrip` | fcgi/cgi-fcgi/cgi-fcgi.c:818-836 | an environment entry, split at its first equals sign, reads back |
| `FcgiParams.EntryOnWire` | fcgi/cgi-fcgi/cgi-fcgi.c:556-582 | the bytes of an entry: length of the name up to the first equals sign, length of the value, name, value |
| `FcgiParams.EnvRoundTrip` | fcgi/cgi-fcgi/cgi-fcgi.c:818-836 | a list of entries reads back in order |
| `FcgiParams.PutLen` | fcgi/cgi-fcgi/cgi-fcgi.c:556-582 | one length stored behind what was stored before |
| `FcgiParams.BuildNameValueHeader` | fcgi/cgi-fcgi/cgi-fcgi.c:556-582 | both lengths of a pair in at most eight bytes |
| `FcgiParams.ReadLen` | fcgi/libfcgi/fcgiapp.c:1149-1156 | a length read from the stream is the parsed one, and missing only if it is cut off |
| `FcgiParams.ReadNameValue` | fcgi/libfcgi/fcgiapp.c:1173-1186 | name and value read from the stream, cut off exactly when the content is too short, or without room exactly when the area of the int size cannot be had or does not hold what is there |
| `FcgiParams.ReadPair` | fcgi/libfcgi/fcgiapp.c:1145-1187 | one pair agrees with the parse of the content, or there is no room for it, exactly when |
| `FcgiParams.ReadParams` | fcgi/libfcgi/fcgiapp.c:1138-1190 | returns if and only if there is an area for every pair reached; then all pairs in order, or the parameter error exactly when a pair is cut off, and with error -4 unless the stream had failed before |
| `FcgiParams.WideLengths` | fcgi/libfcgi/fcgiapp.c:1145-1173 | eight bytes whose announced lengths wrap to an empty area: there is room if and only if nothing follows |
| `FcgiParams.EntryRoom` | fcgi/libfcgi/fcgiapp.c:1173 | the pair of an entry has room if and only if the entry with its terminator fits an int |
| `FcgiParams.EnvRoom` | fcgi/libfcgi/fcgiapp.c:1138-1190 | so for every list of entries |
| `FcgiParams.SendEntry` | fcgi/cgi-fcgi/cgi-fcgi.c:818-836 | one entry put on the stream |
| `FcgiParams.SendEnvironment` | fcgi/cgi-fcgi/cgi-fcgi.c:818-836 | the loop sends the whole environment as records of any sizes and ends the stream, and gives up exactly on an entry without an equals sign |
| `FcgiParams.EnvironmentIff` | fcgi/cgi-fcgi/cgi-fcgi.c:818-836 | an environment can be sent exactly if every entry has an equals sign |
| `FcgiParams.EndParams` | fcgi/cgi-fcgi/cgi-fcgi.c:836 | flush and close end the parameter stream with one empty record |
| `FcgiParams.DataDelivered` | fcgi/libfcgi/fcgiapp.c:1624-1742 | what a writer frames is what a reader of that stream delivers |
| `FcgiParams.EnvironmentDelivered` | fcgi/libfcgi/fcgiapp.c:1624-1742 | the records of an environment deliver its encoding and leave the bytes after it |
| `FcgiParams.SwitchToStdin` | fcgi/libfcgi/fcgiapp.c:1845-1857 | after the parameters the reader goes on with the standard input of the request |
| `FcgiParams.EnvironmentTrip` | fcgi/libfcgi/fcgiapp.c:1138-1190 | every environment, through a writer of any buffer size, any fragmentation and the decoder, comes back as the same list with status 0, no error, and the following stream intact, if and only if every entry with its terminator fits an int |

## Left out

- Sockets, connecting, timeouts, event-loop adapters and the operating-system layer: a read is a non-empty portion chosen by the environment, a write is an append or a reported failure.
- Freeing of memory and failing allocations, except where an operation reports them.
- FCGX_VFPrintF, sdscatprintf and other printf-style formatting by the C library.
- FCGX_Accept_r with its connection retry, the BEGIN record that opens a request, FCGX_UnGetChar and FCGX_StartFilterData.
- Growth of the parameter vector behind ReadParams.
- Write errors of FastCGI streams; EmptyBuffProc is modelled as two methods, one for each value of its close flag.
- SUBSCRIBE, MONITOR, the connect phase, and user code inside the disconnect callback of an asynchronous context.
- The hash function and key comparison: any function on keys, and equality.
- sdsIncrLen, sdstrim, sdssplitlen, sdsjoin, case mapping and comparison of dynamic strings, which would only add easy members.
- Character classes of locales other than the C locale.
- cgi-fcgi's event handlers and argument parsing, fcgi_stdio, fcgio and the Java port.
- The nginx module of FastDFS, and the nginx and redis headers.
- AsyncSession.Run: covers a connected context and regular commands; ends where a reply comes that nobody waits for and that is no error, since the code's assertion fails there, or where the reader's buffer would outgrow an int.
- Async.Context.AsyncCommand: the output buffer of the asynchronous context is a byte sequence that always has room, so the append whose failure the code ignores does not fail; OutputBuffer models the buffer itself.
- FcgiReader.Reader.FillBuffProc: assumes that no management record (request id 0) is met before the end of the stream, and that a read fails only by end of input.
- FcgiReader.ReadMix: the same assumption on management records.
- FcgiReader.Reader.constructor: the same assumption on management records.
- FcgiReader.Reader.ProcessHeader: the same assumption on management records.
- FcgiReader.Reader.SetReaderType: the same assumption on the stream that follows.
- FcgiParams.SendEnvironment: entries are shorter than 2^31 bytes, the limit of a C int and of the length encoding; the writer's connection does not fail.
- FcgiParams.EnvironmentTrip: the same limits on what can be sent, and what follows the parameters holds no management record.
- FcgiRecord.AlignInt8Spec: states the result below the largest 32-bit multiple of eight, where the sum does not wrap.
- RespReader.ReadStream: stops before a feed that would make the buffer longer than the largest int, and at a count whose sign changes when it is cut to an int, where the code goes on with an array that has no room for its children or with children that never come.
- RespReader.Reader.AppendToBuffer: the same limit on the buffer.
- RespReader.Reader.Feed: the same limit on the buffer.
- RespReader.Deliver: the same limit on the buffer.
- RespReader.Reader.ProcessMultiBulkItem: stops at such a count.
- FcgiInput.SwitchIff: padding that starts like a header is taken for one; what follows then depends on all of it and is what FcgiReader.Reader.SetReaderType says.
- OutputBuffer.Output.BufferWrite: a single write reports at most the largest int.
- Sds.Run: strings up to 2^61 bytes, for which the growth policy stays within 64 bits.
- Sds.SdsString.CatLen: the same bound, and so for the other operations that lengthen a string.
- SdsFormat.CatFmt: the same bound.
- Command.FormatSdsCommandArgv: commands up to 2^58 bytes, so that the string can be allocated.
- Command.EchoCommand: commands that fit an int with their terminator, the only ones a plain formatter makes.
- FormatString.VFormatCommand: formats of literals, %s, %b and %%, which are C strings and hold no NUL; conversions handed to printf and the format error they may raise are not modelled.
- Arguments.NextArgument: the text is a command of the argv formatter, whose arguments are shorter than 2^31 bytes.
- Repr.PrintAndSplit: lists whose printed form fits a dynamic string of 2^61 bytes.
- HashTable.Dict.Expand: requested sizes below the largest long; above it the code takes a size that is no power of two, as HashTable.NextPower states.
- HashTable.Dict.ExpandIfNeeded: sizes whose double is below the largest long.
- HashTable.Dict.KeyIndex: tables that need at most 2^31 buckets, since a bucket number is returned as an int.
- HashTable.Dict.Add: the same bound.
- HashTable.Dict.Replace: the same bound.
- HashTable.Perform: the same bound.
- HashTable.Run: an entry is added only while there are fewer than 2^31, for the same reason.
- HashIterator.Sweep: the user deletes no entry but the one just returned, and adds none.
