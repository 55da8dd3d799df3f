# midithing in Dafny

midithing drives a grbl CNC controller from a Novation Launchpad Pro. The
pad's arrow buttons jog the machine by one step, and its 8x8 grid pads move
it to a cell. The controller's status reports are shown back on the pad: the
machine state colours one LED, and the machine position lights a row and a
cursor cell of the grid.

This project models the sequential core of that program and proves properties
of the model:

- **The receive-buffer ledger** (`command_stack.dfy`). The host tracks the
  jog commands sent but not yet acknowledged, oldest first, and how many of
  the controller's 126 receive-buffer bytes are still free. It is a class whose
  `Push` and `Pop` update the two fields in place. Its invariant is that free
  bytes plus in-flight bytes always equal 126.
- **The main loop's event handling** (`main_loop.dfy`). Each serial line,
  jog request and poll tick is one step over the ledger. Lines starting with
  `<` are parsed as status reports and forwarded. Lines starting with `ok`
  pop the ledger. A jog request is formatted as `G91`/`G90`; it is written
  only if it fits, and pushed only if the write succeeded. A loop over a
  sequence of events is proved to do what a functional `Run` describes. The
  proofs show that the buffer is never over-committed and that every
  parseable status is forwarded in order.
- **The jog command text** (`jog.dfy`, `decimal.dfy`). A request becomes
  `G91 X<100·dx>.000 Y<100·dy>.000\r`. A parser for that text is the
  partner: it reads every formatted command back as the request's mode and
  scaled coordinates.
- **The status parser** (`status_parser.dfy`, `strings.dfy`).
  `removeMarkers` and `ParseStatus` are pure functions over Go's
  `strings.Split`. The conditions under which the Go code would panic with an
  index error are preconditions. The three `MPos` coordinates are kept as
  text.
- **The serial line reassembler** (`line_reader.dfy`). A class holds the
  buffered bytes. Each read appends its bytes and hands on the bytes before
  the first CR LF as a line, so at most one line is produced per read. The
  proofs show that no byte is lost, duplicated or reordered over any run of
  reads.
- **The pad logic** (`launchpad.dfy`):
  - the 8x8 grid is built in a two-dimensional array;
  - the 136-byte SysEx message that lights the grid, with a decoder as its
    partner;
  - the state colour packets;
  - the `statusUpdate` step, over a class holding the state currently shown;
  - the decoder from MIDI packets to position-change requests.

Two lines arriving in one read are not both emitted. The reader hands on
`ok` and keeps the status line buffered until the next read (serial.go:68-78,
`LineReader.OneReadExample`).

## Model

| member | source | states |
|---|---|---|
| CommandStack.InFlightBytesAppend | main.go:35-37 | appending a command adds exactly its length to the in-flight byte total |
| CommandStack.GrblCommandStack.constructor | main.go:82-84 | a new ledger has no command in flight and all 126 bytes free, so the invariant holds |
| CommandStack.GrblCommandStack.CanPush | main.go:57-59 | under the invariant, a command may be pushed exactly when the in-flight bytes plus its length stay within the 126-byte buffer |
| CommandStack.GrblCommandStack.Push | main.go:35-41 | the command becomes the newest in flight; its length is taken from the free bytes and returned; no capacity check is made; the invariant is kept, and the buffer stays within budget when `CanPush` held before |
| CommandStack.GrblCommandStack.Pop | main.go:43-55 | it reports an error exactly when nothing is in flight, and then changes nothing; otherwise it removes the oldest command, keeps the rest in order, and returns its length to the free bytes; the invariant and the budget are kept |
| GoStrings.IndexOf | main.go:157 | the index of the first occurrence of the separator |
| GoStrings.Split | main.go:157 | there is always at least one piece (`SplitSpec` pins the pieces down) |
| GoStrings.SplitSpec | main.go:157 | `strings.Split` gives one piece exactly when the separator is absent; no piece contains it; joining the pieces with it gives back the input |
| GoStrings.SplitJoin | main.go:167-169 | splitting a join of separator-free pieces gives back the pieces |
| Decimal.IntToString | main.go:111-113 | the integral text of `%.3f` for a whole number: digits with a leading '-' exactly for negatives |
| Decimal.IntRoundTrip | main.go:111-113 | every integer's decimal text reads back as that integer |
| StatusParser.RemoveMarkers | main.go:182-185 | exactly the first and the last character are removed |
| StatusParser.RemoveFramed | main.go:182-185 | removing the markers of `<body>` gives `body` |
| StatusParser.ApplyField | main.go:167-175 | a component keyed other than `MPos` leaves the position unchanged; one keyed `MPos` sets it |
| StatusParser.Key | main.go:167-168 | the key is a colon-free prefix of the component, followed there by ':' whenever the component holds one |
| StatusParser.ScanFields | main.go:163-177 | the position after the component loop is the one it started with, or one set by an `MPos` component |
| StatusParser.ScanFieldsConcat | main.go:163-177 | the component loop over two lists in a row equals the loop over their concatenation |
| StatusParser.ScanFieldsSkipsOthers | main.go:167-175 | components none of which is keyed `MPos` leave the position as it was |
| StatusParser.ParseStatus | main.go:156-180 | parsing fails exactly when the text between the markers has no '\|'; on success the state is the '\|'-free text before the first '\|' |
| StatusParser.ParseComponents | main.go:157-166 | fewer than two components is an error; otherwise the state is component 0 verbatim |
| StatusParserProperties.MPosFieldParses | main.go:167-172 | `MPos:x,y,z` is keyed `MPos`, can be processed, and sets the position to (x, y, z) |
| StatusParserProperties.ParseJoined | main.go:156-180 | a framed line parses as its '\|'-separated components do |
| StatusParserProperties.ParseMPosStatus | main.go:156-180 | `<S\|MPos:x,y,z\|F1\|...>` parses to state S at (x, y, z) whatever non-`MPos` fields follow |
| StatusParserProperties.ExtraFieldIgnored | main.go:167-176 | inserting a component not keyed `MPos` anywhere after the state leaves the parse result unchanged |
| StatusParserProperties.ExtraFieldIgnoredInLine | main.go:163-177 | the same for the whole framed status line |
| StatusParserProperties.OtherFieldIgnorable | main.go:167-175 | a `Key:value` field with a key other than `MPos` is skipped |
| StatusParserProperties.RemoveMarkersExample | main_test.go:17-23 | `<blub>` becomes `blub` |
| StatusParserProperties.MalformedExample | main_test.go:82-89 | `<Idle` is rejected |
| StatusParserProperties.StatusWithFsExample | main_test.go:44-62 | `<Idle\|MPos:0.400,0.000,0.333\|FS:0,0>`, and the same line with any other `FS` value, parses to Idle at (0.400, 0.000, 0.333) |
| StatusParserProperties.StatusWithOneExtra | main.go:156-180 | `<S\|MPos:x,y,z\|F>` with a skipped field F parses to state S at (x, y, z) |
| StatusParserProperties.StatusWithWcoExample | main_test.go:63-81 | a line with `FS` and `WCO` fields after `MPos` parses to the `MPos` position and the state |
| Jog.FormatJog | main.go:109-114 | the command ends in a carriage return |
| Jog.FormatJogRoundTrip | main.go:109-114 | reading the command back gives the request's relative flag and X, Y times 100 |
| Jog.RelativeJogExample | main.go:111 | one step right and one down is `G91 X100.000 Y-100.000\r` |
| LineReader.IndexCRLF | serial.go:70 | the first CR LF at or after the start index, or -1 exactly when there is none |
| LineReader.Scan | serial.go:68-78 | with no line found, every byte is kept; otherwise the input is the line, CR LF, and what stays buffered |
| LineReader.ScanFindsFirst | serial.go:70-76 | a line is found exactly when the bytes hold a CR LF, and the line is cut at the first one |
| LineReader.ScanPreservesStream | serial.go:68-78 | a scan loses no byte |
| LineReader.FeedPreservesStream | serial.go:54-80 | over any run of reads, the emitted lines each with CR LF, then the bytes still buffered, are the bytes buffered at the start followed by every byte delivered |
| LineReader.Feed | serial.go:54-80 | at most one line is emitted per read performed |
| LineReader.SerialReader.constructor | serial.go:27 | the buffer starts empty |
| LineReader.SerialReader.ReadOnce | serial.go:55-78 | one iteration: the read's bytes are appended and scanned; the loop stops after a failed read; the buffer stays within its 1024 bytes |
| LineReader.SerialReader.Run | serial.go:54-80 | the read loop emits the lines of the reads that occur until one fails, losing no byte, with at most one line per read |
| LineReader.ScanOneLine | serial.go:70-78 | a CR-free line, CR LF and anything after scan to that line and the rest |
| LineReader.TwoReadsExample | serial.go:57-79 | `ok\r\n` then `<Idle\|MPos:1,2,3>\r\n` in two reads emit both lines and leave nothing buffered |
| LineReader.TwoReads | serial.go:57-79 | any two CR-free lines read separately with CR LF are both emitted, nothing left buffered |
| LineReader.OneReadExample | serial.go:68-78 | the same bytes in one read emit only `ok` and keep the status line buffered |
| LineReader.OneRead | serial.go:68-78 | two lines in one read emit only the first; the second stays buffered with its CR LF |
| MainLoop.ClassifyLine | main.go:97-107 | a status report is exactly a line starting with '<', an acknowledgement exactly one starting with "ok"; it agrees with the as-written test wherever that test cannot panic |
| MainLoop.ClassifyLineAsWritten | main.go:97-105 | the as-written test sees a status report exactly when the line starts with '<' and an acknowledgement exactly when it starts with "ok" |
| MainLoop.ShortLinesReachClassifier | main.go:97-105 | the reader hands on the empty line for a bare CR LF and "o" for `o\r\n`, and the as-written test cannot look at either |
| MainLoop.HandleSerialLine | main.go:96-107 | a parseable status is forwarded; an acknowledgement pops the oldest command, an empty ledger changing nothing; other lines change nothing; the budget is kept |
| MainLoop.HandlePositionChange | main.go:108-121 | the command is the formatted request; it is written exactly when it fits and pushed exactly when it was written and the write succeeded; otherwise the ledger is unchanged |
| MainLoop.Step | main.go:96-131 | the forwarded statuses, the written commands and the pushed commands only grow; only a serial line forwards, only a jog pushes, and a tick or quit leaves the ledger alone |
| MainLoop.Run | main.go:88-132 | over any run of events the three histories only grow |
| MainLoop.InitialBalanced | main.go:82-84 | the loop starts balanced |
| MainLoop.PopKeepsBalance | main.go:105-106 | popping after an acknowledgement keeps the loop invariant |
| MainLoop.PushKeepsBalance | main.go:115-120 | pushing a command that fits keeps the loop invariant |
| MainLoop.StepKeepsBalance | main.go:96-131 | every event keeps the invariant: bytes add up to 126, the free count never goes negative, and the commands in flight are the most recently pushed ones, in order |
| MainLoop.RunKeepsBalance | main.go:88-132 | the invariant holds after any run of events |
| MainLoop.JogWrittenIffFits | main.go:115-121 | a jog is written exactly when it fits next to the bytes in flight, and pushed exactly when the write also succeeded |
| MainLoop.StepForwards | main.go:96-104 | one event forwards its status exactly when it is a status line that parses |
| MainLoop.RunForwardsStatuses | main.go:96-104 | every status line that parses is forwarded in order, whatever the ledger does |
| MainLoop.HandleEvent | main.go:90-131 | one pass of the select updates the ledger and records exactly as `Step` says, keeping the budget |
| MainLoop.MainLoop | main.go:82-132 | the loop from a fresh ledger ends where `Run` says, with the buffer never over-committed |
| Launchpad.PadNote | launchpad.go:266-268 | the pad of cell (row, column) is in 11..88, with tens digit row+1 and units digit column+1 |
| Launchpad.GridOf | launchpad.go:238-249 | the grid is 8x8 |
| Launchpad.CellColor | launchpad.go:241-246 | colour 5 exactly at the cursor cell, 13 on the rest of row Y, 127 on every other row |
| Launchpad.CursorShownIffOnGrid | launchpad.go:242-246 | a cursor cell is lit exactly when both coordinates are on the grid, and only at that cell |
| Launchpad.RowShownIffOnGrid | launchpad.go:242-246 | the cursor row is lit exactly when Y is on the grid; otherwise every cell is off |
| Launchpad.BuildGrid | launchpad.go:238-249 | the array filled in place holds in every cell the colour `GridOf` gives |
| Launchpad.GridMessage | launchpad.go:255-273 | the grid message is 136 bytes long |
| Launchpad.PairAt | launchpad.go:265-271 | the pair for cell (row, column) holds its pad number and then its colour |
| Launchpad.GridMessageAt | launchpad.go:256-273 | the pad number and the colour of every cell sit at fixed offsets after the 7-byte prefix |
| Launchpad.GridMessageRoundTrip | launchpad.go:255-273 | every grid message decodes back to its matrix |
| Launchpad.DecodeGridSound | launchpad.go:255-273 | a message that decodes to a matrix is exactly that matrix's grid message |
| Launchpad.RowColorMessage | launchpad.go:255-273 | the bytes appended row by row, cell by cell, are the grid message of the array's contents |
| Launchpad.SetPosition | launchpad.go:234-253 | the message for a rounded position is the grid message of `GridOf` |
| Launchpad.SetStatePackets | launchpad.go:185-232 | packets exist exactly for Idle and Run; the first sets the colour; a pulse packet follows exactly when the pulse colour differs |
| Launchpad.StateColors | launchpad.go:189-198 | colours exist exactly for Idle and Run; the pulse colour differs from the colour exactly for Run |
| Launchpad.IdlePackets | launchpad.go:190-212 | Idle sends the single packet `F0 00 20 29 02 10 0A 0A 60 F7` |
| Launchpad.RunPackets | launchpad.go:193-228 | Run sends the colour 75 packet, then the pulse packet `F0 00 20 29 02 10 28 0A 4C F7` |
| Launchpad.StatusPackets | launchpad.go:170-180 | one to three packets ending with the grid message; any before it are the state packets of a state that differs from the one shown |
| Launchpad.SameStateOnlyRedraws | launchpad.go:170-180 | a status in the state already shown only redraws the grid |
| Launchpad.NewStateRecolours | launchpad.go:170-180 | a new known state sends its colour packets before the grid; a new unknown state only sends the grid |
| Launchpad.Pad.constructor | launchpad.go:24 | a new pad shows no state |
| Launchpad.Pad.StatusUpdate | launchpad.go:170-180 | the packets sent are `StatusPackets` of the state shown before, and the shown state becomes the status's state, even an unknown one |
| Launchpad.ArrowStep | launchpad.go:290-299 | each arrow asks for at most one step along one axis; the step is non-zero exactly for the four arrows, so any other controller stands still |
| Launchpad.ByteDecrement | launchpad.go:313-314 | byte subtraction of 1, wrapping 0 to 255 |
| Launchpad.OnMessage | launchpad.go:279-326 | a request is produced exactly for a control change that is not value 127 or a note on with non-zero velocity; control changes are relative arrow steps; note ons are absolute with X and Y the pad's digits minus one in byte arithmetic; Z is 0 |
| Launchpad.PadPressRoundTrip | launchpad.go:303-320 | pressing the pad of a grid cell asks to move to that cell |
| Launchpad.ArrowPresses | launchpad.go:280-302 | the four arrows step up, down, left and right; value 127 asks for nothing |
| Launchpad.OtherControllerStandsStill | launchpad.go:285-302 | a control change from any other controller, value not 127, asks for a relative step of zero |
| Launchpad.OffGridPadStillRequested | launchpad.go:303-320 | the off-grid note 10 still yields an absolute request, with X = 255 |
| Launchpad.OnMessageChecked | launchpad.go:307-309 | with the range check enforced, an absolute request is always on the grid, and otherwise the result equals `OnMessage` |
| Launchpad.PadsAreOnGrid | launchpad.go:303-320 | the checked decoder still answers every grid pad with its cell |
| Launchpad.OffGridPadDropped | launchpad.go:307-309 | the checked decoder drops note 10 |

## Left out

- Floating point: `strconv.ParseFloat` of the `MPos` coordinates and `math.Round` in `setPosition`. Positions stay text, and `SetPosition` takes the rounded integers.
- CoreMIDI: client, port and device setup, `Send`, and the constant mode-change, set-all and arrow packets sent by `init`. The model stops at the packet bytes.
- Serial I/O: opening the port, the reset write, the two-second sleep, the flush read, `Write` and `Close`. A write is an abstract success or failure input of `HandlePositionChange`. A read is a `Read` value with its bytes and a failure flag.
- Concurrency: goroutines, channels, `select`, the one-second ticker and the interrupt signal. Each select case is one event of `MainLoop.Event`. The poll tick only records a bare `?` write, which bypasses the ledger.
- `launchpad.Close()` is called by the main loop but is not part of this model. `Filter` and `FindEntityByName` filter foreign device handles and are left out.
- The ring buffer library's overflow behaviour is unknown. Every read must fit within the 1024 bytes (`LineReader.Fits`).
- Logging everywhere.
- Jog.FormatJog: does not model `int` overflow of `100*X`; it assumes `%.3f` of a whole number prints it exactly with `.000`.
- StatusParser.RemoveMarkers: works on characters, whereas Go slices runes of the UTF-8 text; for ASCII status reports the two agree.
- StatusParser.ParseStatus: requires `StatusParsable`, i.e. the line is at least 2 characters and every `MPos` component has a value with at least three comma pieces, because the Go code panics otherwise; the coordinates are not converted to numbers.
- CommandStack.GrblCommandStack.Push: returns only the length, because the source's error result is always nil.

## Findings

| source | as written | input that shows it | evidently intended | confidence | as-written member | corrected member |
|---|---|---|---|---|---|---|
| main.go:97-105 | `message[0]` and then `message[1]` are indexed on every line from the controller | a bare CR LF from the controller reaches the loop as the empty line, and `o\r\n` as "o"; both index past the end and panic | short lines are ignored like any other line | medium, not executed | MainLoop.ShortLinesReachClassifier | MainLoop.ClassifyLine |
| launchpad.go:307-320 | an out-of-range row or column is only logged, and the request is still sent | Note On for note 10 (row 1, column 0) gives X = `0 - 1` = 255 as a byte, and the loop sends `G90 X25500.000 Y0.000` | an off-grid pad is dropped | medium, not executed | Launchpad.OffGridPadStillRequested | Launchpad.OnMessageChecked |
