# Models of the mining board's software

The board's software is three programs that have little to do with each other: a player for
Jam STAPL files that programs chips over JTAG (`sw/vladik/jtag/jam`), a Linux driver that offers
the kernel's ciphers to user programs (`sw/vladik/cryptodev-linux-1.6`), and a test miner
(`sw/old/SW_TEST_MINER/hashblock.cpp`). This project models their core in Dafny and proves what
each part is for. `dafny verify dfyconfig.toml` checks everything.

Loops, buffers and records that the C code updates in place are methods, arrays and classes here,
and each such method is proved against a function or predicate that says what it computes. What
the format, the protocol or the documentation promises is then proved about those functions as
lemmas, over every input and every run.

## What is proved

**Decompression** (`JamComp`, `AcaFormat`, `JamAca`). The bit reader keeps its place between calls,
and the decompressor's overlapping copies and growing offset field are modelled as written. Whatever
legal tokens a byte string is packed with, for both window sizes, and wherever white space stands in
the six-bit text, the declared array holds exactly those bytes. The text is unpacked into the very
buffer it is read from without losing an unread character; the version that reads the stream gives
the same bits.

**The JTAG driver** (`JtagTap`, `JtagCalls`, `JtagRegister`, `JamJtag`). The driver's tables are the
state machine of section 6.1 of IEEE Std 1149.1; the distance to any target falls by one with every
clock and is at most eight. From power-up, with the controller in any state, the state the driver
keeps is the controller's throughout a run of calls, refused scans included, exactly when each wait
is in a stable state or of no cycles, and each scan shifts a bit or has a stop state other than
Pause and Exit2 of its register. Scans present preamble, target and postamble in the Shift state of
the right register, and exactly the answers to the target bits reach the output, although one buffer
serves both directions. A register of that length ends up holding the data and hands it on. Padding
set from a start index is copied faithfully exactly when the index is a multiple of 32 (or nothing
is copied).

**Loops, saved values and calls** (`JamStack`, `JamControl`, `JamExec`). The interpreter jumps in
the program and keeps one stack of 128 records, of which the last hides the others when it is
filled. A program written as nested blocks is laid out as statements, and the jumping machine does
on the layout what the nested reading says: same variables, same statements in the same order, same
error, endless exactly when the reading is. Up to depth 127 the stack cannot be noticed. A loop
whose body completes and leaves its variable alone in every turn makes 1 + max(0, ceil((stop -
start) / step)) turns (mirrored for a negative step) exactly when its last value fits in 32 bits,
and is then its body written out that often; loops in loops multiply, and a counting loop leaves the
variables as its statement folded over the count. FOR 0 TO 2147483647 STEP 2 is proved to run for
ever.

**Array texts** (`JamText`, `JamDigits`, `JamLiteral`, `DigitArrays`, `JamRlc`, `JamSubrange`).
Binary and hexadecimal arrays, declared and then reversed or converted as literals over their own
text, both hold the binary digits of the number the text denotes, for odd digit counts too. Both
run-length decoders return the bits of every run-length text. A subrange copied within one array is
right exactly when it does not run forward into its own source.

**Symbols and memory** (`JamSym`, `JamHeap`). The hash chains are a finite map, and a declaration
lasts. The hash is an index of the table exactly when its sum is not -2147483648; names of up to 26
characters never reach it. The fixed tables, upward and downward records of a workspace never
overlap in any run, and after one failed allocation none succeeds. The list of separately allocated
records is freed once each although its first record links to itself.

**The CRC** (`JamCrc`, `JamCrcScan`). The register is linear, detects every change of a message
within 16 neighbouring bits, and is left at 0xF0B8 by a message followed by its CRC (appendix C.2 of
RFC 1662). Converting line ends to DOS form changes nothing the scanner reports. Comments, strings
and statements are passed over whatever words they hold. A text behind which a CRC statement is seen
is accepted with its own CRC. What damage in front of the statement is accepted again is
characterised exactly. Damage within 16 bits that makes and removes no carriage return is refused,
unless it makes an earlier CRC statement out of something else, or hides the statement from the
scanner and another one follows. A character turned into a carriage return drops out of the CRC, and
a single changed bit can pass in this way. Two programs show that the exception for an arising
statement and the condition on carriage returns are needed.

**Expressions** (`JamExp`). Powers, with every intermediate product bounded by the result; square
roots, and roots rounded up, which are right exactly below 2^30; rounded-up logarithms.

**The asynchronous job ring** (`AsyncRing`, `CryptPrivState`). A protocol whose steps are what one
process does under one lock. In every reachable state each item is in one place, the count agrees
with the items and stays within 64, no accepted job is lost, delivered twice or with another's
result, and no queued job waits without a worker on its way. As long as no two workers are busy at
once the order is first in, first out; workers that run as they like are sure to keep it exactly
when there is not more than one. The in-place methods on the driver's record are the steps.

**TLS records and page lists** (`TlsRecord`, `ScatterList`). Sealing a record and opening it gives
the data back, within the length the driver reserves; a record is accepted exactly when its padding
is well formed and its tag right; resealing gives the same record exactly when the padding was the
shortest one. Page lists denote exactly the user's bytes, no entry crosses a page, and the list of
the encrypted part of an SRTP packet denotes the tail of the authenticated one. Done in place, one
list covers source and destination exactly when the lengths agree.

**Arithmetic and hashing** (`UintArithmetic`, `HashBlock`). Every arithmetic operator, shift and
comparison of the fixed-width numbers is arithmetic modulo the width, for every width and every
shift. The in-place padding is that of section 5.1.1 of FIPS 180-4, exactly for messages below 2^29
bytes, and the route over the midstate gives the same bytes as hashing the header twice, for any
compression function.

## Where the code and its documentation differ

- `jam_check_crc` says it ignores carriage returns in front of newlines. It ignores all of them except
  between the four digits. The model follows the code.
- `jam_hash` says it returns an index of the table. `JamSym.HashInRangeIff` says when, and
  `JamSym.TwentySevenCanMiss` shows a legal name for which it does not.
- `jam_pop_stack_record` says it fails on an empty stack. It also fails on a full one, and so does
  peeking. See `JamStack.PushPopIff`.
- `ioctl.c` says nothing about the order in which jobs come back. Where the kernel runs one work item on
  two workers at once, they need not come back in order: `AsyncRing.FifoIff`. Where it does not, they do:
  `AsyncRing.InTurnIsFifo`.
- Without a hash a TLS record with bad padding is returned whole: `TlsRecord.WithoutHashAllAccepted`.
- `itemcount` is not lowered when an allocation fails: `AsyncRing.ReleaseFreesEverything`.

## Model

| member | source | states |
|---|---|---|
| JamComp.BitsRequiredLoop | sw/vladik/jtag/jam/jamcomp.c:29-53 | The shifting loop finds the number of bits a short needs, and one bit for zero |
| JamComp.BitsRequiredUnique | sw/vladik/jtag/jam/jamcomp.c:29-53 | That number is the only width whose powers of two enclose the argument |
| JamComp.PackedReader.Read | sw/vladik/jtag/jam/jamcomp.c:58-109 | Wherever the last call stopped, the next bits come out lowest first and the place moves on by that many; past the end -1 comes out |
| JamComp.CopyBack | sw/vladik/jtag/jam/jamcomp.c:168-180 | A match copies earlier output forward byte by byte, repeating itself when it overlaps, and stops at the announced length |
| JamComp.CopyLiteral | sw/vladik/jtag/jam/jamcomp.c:154-165 | A literal stores up to three bytes and no more than are missing |
| JamComp.Uncompress | sw/vladik/jtag/jam/jamcomp.c:114-185 | On well-formed input the output is the decoding of the stream for a window of 8192, in Jam 2.0 of 8191, the rest of the buffer is cleared, and a length that does not fit gives -1 |
| JamComp.LateOffsetWidth | sw/vladik/jtag/jam/jamcomp.c:135-169 | From byte 8192 on an offset takes 14 bits, in Jam 2.0 only 13 |
| AcaFormat.PackCarries | sw/vladik/jtag/jam/jamcomp.c:58-109 | Packing bits into bytes puts every bit where the bit reader looks for it |
| AcaFormat.DecodeOne | sw/vladik/jtag/jam/jamcomp.c:152-181 | Decoding a packed literal or match gives the bytes it stands for and moves on by its length |
| AcaFormat.DecodeInvertsPacking | sw/vladik/jtag/jam/jamcomp.c:114-185 | Decoding the packed form of any legal tokenisation gives the bytes back, overlapping matches and a short last literal included |
| AcaFormat.StreamRoundTrip | sw/vladik/jtag/jam/jamcomp.c:114-185 | The same for a whole stream with its length header, whatever follows it, for tokens that reach back 8192 bytes, in Jam 2.0 8191 |
| AcaFormat.RoundTrip | sw/vladik/jtag/jam/jamcomp.c:114-185 | Compressing any bytes with any legal tokens for a window of 8192, in Jam 2.0 of 8191, and decompressing them is the identity |
| AcaFormat.ExampleIsUnpacked | sw/vladik/jtag/jam/jamcomp.c:114-185 | A stream of nine bytes worked out by hand is unpacked to ABCAB |
| AcaFormat.AllLiteralsTokenise | sw/vladik/jtag/jam/jamcomp.c:152-165 | Every byte string has a legal tokenisation, so the round trip is about all of them |
| JtagTap.TableIsController | sw/vladik/jtag/jam/jamjtag.c:88-110 | The transition table is the state diagram of section 6.1 of IEEE Std 1149.1 |
| JtagTap.Distance | sw/vladik/jtag/jam/jamjtag.c:119-125 | The path map leads from every state to every other in at most eight clocks |
| JtagTap.DistanceStep | sw/vladik/jtag/jam/jamjtag.c:119-125 | Every clock along the path map shortens the way by exactly one |
| JtagCalls.PathArrives | sw/vladik/jtag/jam/jamjtag.c:582-655 | Walking the path brings the controller to the target |
| JtagCalls.PathAvoidsShift | sw/vladik/jtag/jam/jamjtag.c:582-655 | On the way no Shift state is passed, so no register is shifted by accident |
| JtagCalls.ResetIdleArrives | sw/vladik/jtag/jam/jamjtag.c:556-577 | Five clocks with TMS high and one low lead to Run-Test/Idle from any state |
| JtagCalls.ApproachArrives | sw/vladik/jtag/jam/jamjtag.c:893-918 | Before the first data bit the controller is in the Shift state of the scanned register |
| JtagCalls.ShiftStays | sw/vladik/jtag/jam/jamjtag.c:926-945 | It stays there until the last bit, which is the only one clocked with TMS high |
| JtagCalls.DataReachesRegister | sw/vladik/jtag/jam/jamjtag.c:881-1022 | From any tracked state every data bit is presented in the Shift state of the right register |
| JtagCalls.LeaveFromShift | sw/vladik/jtag/jam/jamjtag.c:1145-1155 | A scan of no bits arrives at the stop state exactly when that state is neither Pause nor Exit2 of its register |
| JtagCalls.ScanTracks | sw/vladik/jtag/jam/jamjtag.c:1027-1158 | After a scan the kept state is the controller's exactly when a bit was shifted or the stop state is neither Pause nor Exit2 |
| JtagCalls.WaitTracks | sw/vladik/jtag/jam/jamjtag.c:692-730 | After a wait it is exactly when no cycle was waited or the state is stable |
| JtagCalls.CallTracks | sw/vladik/jtag/jam/jamjtag.c:556-1158 | Each call keeps the driver in step with the controller exactly under those conditions |
| JtagCalls.RunsTrack | sw/vladik/jtag/jam/jamjtag.c:556-1158 | From power-up, with the controller in any state, the driver is in step throughout a run exactly when every call meets those conditions |
| JtagRegister.ScanLoadsRegister | sw/vladik/jtag/jam/jamjtag.c:881-1022 | A register as long as the data, in a controller in any state the driver allows for, holds preamble, target and postamble after the scan, the first bit next to TDO |
| JtagRegister.ScanReturnsRegister | sw/vladik/jtag/jam/jamjtag.c:926-945 | What comes back is what the register held when shifting began, the stage next to TDO first |
| JtagRegister.ScanUpdatesRegister | sw/vladik/jtag/jam/jamjtag.c:1027-1158 | On the way to any stop state other than Pause and Exit2 the register hands the data on |
| JamJtag.Player.ResetToIdle | sw/vladik/jtag/jam/jamjtag.c:556-577 | Clocks the reset sequence and keeps Idle |
| JamJtag.Player.SetStop | sw/vladik/jtag/jam/jamjtag.c:188-215 | Only the stop state of one register changes |
| JamJtag.Player.Goto | sw/vladik/jtag/jam/jamjtag.c:582-655 | Clocks the path to the target, after a reset when the state is unknown, and always succeeds |
| JamJtag.Player.WaitForCycles | sw/vladik/jtag/jam/jamjtag.c:692-730 | Goes to the state and clocks exactly that many cycles at the level that should hold it |
| JamJtag.Player.WaitForMicroseconds | sw/vladik/jtag/jam/jamjtag.c:735-770 | Goes to the state, unless the state is unknown, and clocks nothing else |
| JamJtag.Player.FinishJtag | sw/vladik/jtag/jam/jamjtag.c:1606-1661 | Resets the chain when the state is known |
| JamJtag.Player.SetPreamble | sw/vladik/jtag/jam/jamjtag.c:220-383 | Keeps the range of the given array or all ones, from a word boundary; refuses more than a workspace can hold |
| JamJtag.Player.SetPostamble | sw/vladik/jtag/jam/jamjtag.c:388-551 | The same for the postamble |
| JamJtag.CopyPadding | sw/vladik/jtag/jam/jamjtag.c:276-291 | What the setters' loop does for any start index: it counts bits from the start index and words from zero |
| JamJtag.PaddingFaithfulIff | sw/vladik/jtag/jam/jamjtag.c:276-291 | It copies the requested bits for every array exactly when the start index is a multiple of 32 or nothing is copied |
| JamJtag.ConcatenateData | sw/vladik/jtag/jam/jamjtag.c:775-839 | The scan buffer holds preamble, target and postamble in this order |
| JamJtag.ExtractTargetData | sw/vladik/jtag/jam/jamjtag.c:844-879 | Exactly the target's answers are copied and no other bit of the output changes |
| JamJtag.Player.ClockThrough | sw/vladik/jtag/jam/jamjtag.c:881-1022 | The buffer is clocked out bit by bit and each bit replaced by the answer to it |
| JamJtag.Player.DoScan | sw/vladik/jtag/jam/jamjtag.c:1027-1158 | TDI presents preamble, target and postamble bit by bit in the Shift state, TMS high on the last only, and the scan ends in the stop state; one that does not fit the workspace ends in the state it would have started from, with the driver in step |
| JamJtag.Player.SwapScan | sw/vladik/jtag/jam/jamjtag.c:1163-1312 | A swap does the same and stores the level on TDO at each target bit, and only those, in the output |
| JamStack.PushPopIff | sw/vladik/jtag/jam/jamstack.c:91-214 | Pushing, peeking and popping undo each other exactly below depth 127; the record in the last slot hides all of them |
| JamStack.Stack.Push | sw/vladik/jtag/jam/jamstack.c:91-135 | Adds a record above the others, or changes nothing when all slots are used |
| JamStack.Stack.Peek | sw/vladik/jtag/jam/jamstack.c:140-168 | The newest record, nothing on an empty or full stack |
| JamStack.Stack.Pop | sw/vladik/jtag/jam/jamstack.c:173-214 | Removes the newest record, fails on an empty or full stack |
| JamControl.Simulates | sw/vladik/jtag/jam/jamexec.c:4324-4361 | Placed anywhere in a program, the statements of a block do what the nested reading of the block says and leave the stack as it was |
| JamControl.RunsAsRead | sw/vladik/jtag/jam/jamexec.c:8692-8729 | A whole program ends as its nested reading ends, with the same variables, statements and error, and runs on while the reading does |
| JamControl.ReadAsRun | sw/vladik/jtag/jam/jamexec.c:8692-8729 | Whenever the interpreter ends, the nested reading ends in the same way |
| JamControl.LinkIsLinked | sw/vladik/jtag/jam/jamexec.c:3130-3160 | Every subroutine is found where the calls to it jump |
| JamControl.StackInvisible | sw/vladik/jtag/jam/jamstack.c:91-214 | Up to depth 127 the outcome does not depend on the stack and no stack error is reported |
| JamControl.LastSlotIsUseless | sw/vladik/jtag/jam/jamstack.c:140-214 | With 127 records on the stack no loop, saved value or call is ever completed |
| JamControl.CountsIff | sw/vladik/jtag/jam/jamexec.c:6046-6070 | The count in 32 bits takes the values start + k * step and ends after 1 + max(0, ceil((stop - start) / step)) turns exactly when the last of them fits; otherwise it goes on |
| JamControl.TurnHolds | sw/vladik/jtag/jam/jamexec.c:6046-6070 | If the body leaves the variable alone, it holds the count's value in every turn, and there is a turn exactly when the count has one |
| JamControl.LoopCountsIff | sw/vladik/jtag/jam/jamexec.c:6046-6070 | A loop whose body leaves the variable alone makes the documented number of turns exactly when its last value fits in 32 bits |
| JamControl.ReadingPassesTurn | sw/vladik/jtag/jam/jamexec.c:6046-6070 | These turns are the ones the nested reading goes through |
| JamControl.MachinePassesTurn | sw/vladik/jtag/jam/jamexec.c:6046-6070 | And the jumping machine stands at the first statement of the body, the loop's record on top, once for each |
| JamControl.KeepsInEachTurn | sw/vladik/jtag/jam/jamexec.c:6046-6070 | The condition on the body asks about no memory but those with which the turns of this run begin |
| JamControl.LoopIsWritten | sw/vladik/jtag/jam/jamexec.c:4324-4361 | A loop whose body completes and leaves its variable alone whenever a turn begins is its body written out that often exactly when the last value fits |
| JamControl.LoopEnds | sw/vladik/jtag/jam/jamexec.c:6046-6080 | It ends as the body of its last turn does, having executed the statements of the body once per turn |
| JamControl.NestedLoops | sw/vladik/jtag/jam/jamexec.c:6046-6080 | A loop in a loop, over another declared variable, executes its statement as often as the product of the two counts |
| JamControl.StatementTakesEffect | sw/vladik/jtag/jam/jamexec.c:5502-5980 | A statement leaves the variables as its effect says |
| JamControl.SavedValueReturns | sw/vladik/jtag/jam/jamexec.c:6206-6490 | A variable has its value again after PUSH and POP around any statements, and the others are as those statements left them |
| JamControl.CountingFolds | sw/vladik/jtag/jam/jamexec.c:6046-6080 | A counting loop leaves the variables as the effect of its statement folded over start, start + step and so on |
| JamControl.SumProgramHalts | sw/vladik/jtag/jam/jamexec.c:8692-8729 | The machine run on FOR v = 1 TO n with LET total = total + v halts with the total raised by n (n + 1) / 2 |
| JamControl.EndlessRunsForever | sw/vladik/jtag/jam/jamexec.c:6046-6070 | FOR 0 TO 2147483647 STEP 2 is still running after any number of statements |
| JamExec.Interpreter.Execute | sw/vladik/jtag/jam/jamexec.c:8692-8729 | The main loop with its in-place stack and its FOR, NEXT, PUSH, POP, CALL and RETURN handlers is the machine's run |
| JamText.SixBitChar | sw/vladik/jtag/jam/jamarray.c:382-404 | Each of the 64 values has exactly one character that is read as it |
| JamText.SixBitIsPlace | sw/vladik/jtag/jam/jamarray.c:380-404 | The value of a six-bit character is its place in the alphabet of digits, upper case, lower case, underscore and at sign |
| JamText.Squeeze | sw/vladik/jtag/jam/jamarray.c:481-491 | White space is removed in the text's own buffer |
| JamText.CharStream.GetRealChar | sw/vladik/jtag/jam/jamarray.c:722-770 | The next character outside comments and white space, and the place behind it |
| JamText.RealIsSqueezed | sw/vladik/jtag/jam/jamarray.c:722-770 | Without comments the stream gives the text without its white space |
| JamText.CommentIsSkipped | sw/vladik/jtag/jam/jamarray.c:722-770 | A comment is not delivered, from its apostrophe to the end of the line |
| JamAca.UnpackOne | sw/vladik/jtag/jam/jamarray.c:635-658 | Six bits go to the front of the buffer and no unread character changes |
| JamAca.SixBitsBit | sw/vladik/jtag/jam/jamarray.c:643-655 | A text carries six bits to a character, lowest first |
| JamAca.Unpack | sw/vladik/jtag/jam/jamarray.c:630-661 | The whole text is unpacked in place, exactly when all its characters are legal |
| JamAca.PackUnique | sw/vladik/jtag/jam/jamarray.c:630-661 | The unpacked front of the buffer is the packed stream and nothing else |
| JamAca.ExtractCompressed | sw/vladik/jtag/jam/jamarray.c:592-717 | The array holds the decoded bytes exactly when the text is legal, ends in a semicolon and announces the array's size |
| JamAca.ReadSix | sw/vladik/jtag/jam/jamarray.c:1200-1233 | The stream version stores the same bits, whatever the buffer held before |
| JamAca.ReadCompressed | sw/vladik/jtag/jam/jamarray.c:1150-1269 | A text that spells any legal tokens of the array's bytes gives exactly those bytes |
| JamAca.ConvertLiteralAca | sw/vladik/jtag/jam/jamexec.c:1213-1376 | A literal holds the decoding of its text, with the length its header announces |
| JamAca.SixTextSpells | sw/vladik/jtag/jam/jamarray.c:382-404 | Every bit string can be written in six-bit characters that are read back as it |
| JamAca.TextRoundTrip | sw/vladik/jtag/jam/jamarray.c:592-717 | Any legal tokens of an array's bytes, written as text with white space anywhere, declare those bytes |
| JamDigits.ExtractDigits | sw/vladik/jtag/jam/jamarray.c:230-377 | The digits are stored first digit lowest; accepted are exactly the bodies with the right number of digits, white space anywhere and a semicolon behind |
| JamDigits.ReverseDigits | sw/vladik/jtag/jam/jamarray.c:54-111 | The digits change places end for end |
| JamDigits.DeclareDigits | sw/vladik/jtag/jam/jamarray.c:1595-1606 | After extraction and reversal the array holds the number the text denotes, for every dimension |
| JamDigits.CollectBits | sw/vladik/jtag/jam/jamexec.c:943-987 | Binary digits become bits of the buffer they are read from |
| JamDigits.ReverseBits | sw/vladik/jtag/jam/jamexec.c:993-1021 | The bits change places end for end |
| JamDigits.ConvertBinary | sw/vladik/jtag/jam/jamexec.c:915-1059 | A binary literal holds the number its text denotes, in a variable of its own up to 32 bits and over the text itself beyond |
| JamDigits.CollectNibbles | sw/vladik/jtag/jam/jamexec.c:1092-1146 | Hexadecimal digits become nibbles of the buffer they are read from |
| JamDigits.ShiftNibbles | sw/vladik/jtag/jam/jamexec.c:1150-1161 | An odd number of digits is moved up by a nibble, in place |
| JamDigits.ConvertHex | sw/vladik/jtag/jam/jamexec.c:1064-1208 | A hexadecimal literal does too, odd digit counts included |
| JamDigits.DigitTextIsRead | sw/vladik/jtag/jam/jamarray.c:325-345 | A number written in binary or hexadecimal digits, in any mixture of cases, is read as that number |
| JamDigits.WrittenIsDeclared | sw/vladik/jtag/jam/jamarray.c:230-377 | A declaration of that text with a semicolon behind it declares that number and no other |
| JamLiteral.StoreWords | sw/vladik/jtag/jam/jamexec.c:1044-1057 | The longs are stored over the bytes they are read from, up to three bytes lower, and none is overwritten before it is read |
| JamLiteral.StoreLiteral | sw/vladik/jtag/jam/jamexec.c:1026-1057 | The literal goes to its own variable up to 32 bits and is refused there for too high an argument; beyond it goes back over its text |
| DigitArrays.NumberBit | sw/vladik/jtag/jam/jamarray.c:54-111 | Where each bit of a number stands among its digits |
| DigitArrays.PutDigit | sw/vladik/jtag/jam/jamarray.c:352-356 | Storing a digit changes that digit of the array and no other |
| JamRlc.CountRoundTrip | sw/vladik/jtag/jam/jamarray.c:509-528 | A count written in base 64, highest character first, is read back |
| JamRlc.KeysOfBlocks | sw/vladik/jtag/jam/jamarray.c:409-448 | A to E begin zeros, I to M ones and Q to U plain bits, with one to five characters of length, and nothing else begins a block |
| JamRlc.SixtyFourZeros | sw/vladik/jtag/jam/jamarray.c:502-528 | B10 stands for 64 zeros |
| JamRlc.ExtractRlc | sw/vladik/jtag/jam/jamarray.c:453-587 | The statement-buffer decoder gives the bits of every run-length text whose blocks fill the array, whatever stands in the spare bits of a random block |
| JamRlc.ReadRlc | sw/vladik/jtag/jam/jamarray.c:1021-1145 | The stream decoder gives the same bits for the same text |
| JamSubrange.CopySubrange | sw/vladik/jtag/jam/jamexec.c:5395-5452 | The shorter of two subranges is copied bit by bit, into another array or the same one; empty ranges are an error and no other bit changes |
| JamSubrange.CopyWithinIff | sw/vladik/jtag/jam/jamexec.c:5429-5448 | Within one array each bit comes from where it should exactly when the copy does not run forward into its source |
| JamSubrange.BoolToInt | sw/vladik/jtag/jam/jamexp.c:342-355 | The bits between two indices as an integer, reversed when the indices are, with bits past the 32nd dropped |
| JamSym.Hash | sw/vladik/jtag/jam/jamsym.c:196-223 | The loop computes the hash of the first 32 characters in 32-bit arithmetic |
| JamSym.HashInRangeIff | sw/vladik/jtag/jam/jamsym.c:220-222 | The result is an index of the table exactly when the sum is not -2147483648 |
| JamSym.ShortNamesHash | sw/vladik/jtag/jam/jamsym.c:212-222 | Names of up to 26 characters are always given an index of the table |
| JamSym.TwentySevenCanMiss | sw/vladik/jtag/jam/jamsym.c:212-222 | A legal name of 27 characters whose hash is negative and no index of the table |
| JamSym.SymbolTable.AddSymbol | sw/vladik/jtag/jam/jamsym.c:228-432 | The table as a map changes by one declaration: a new name is added, the same declaration may assign its value, any other clash or an illegal name changes nothing |
| JamSym.SymbolTable.GetRecord | sw/vladik/jtag/jam/jamsym.c:437-490 | Lookup returns the map's entry |
| JamSym.SymbolTable.SetSymbolValue | sw/vladik/jtag/jam/jamsym.c:654-689 | Only the value of a symbol of that kind changes |
| JamSym.DeclarationsLast | sw/vladik/jtag/jam/jamsym.c:228-432 | Over any run a declared symbol keeps its kind, place and block |
| JamSym.LastValueIsFound | sw/vladik/jtag/jam/jamsym.c:654-689 | In any run a symbol has the value it was last set to |
| JamSym.FirstValueIsFound | sw/vladik/jtag/jam/jamsym.c:380-432 | And before that the kind, place and value it was declared with |
| JamSym.DeclaredAgain | sw/vladik/jtag/jam/jamsym.c:284-376 | A declaration met again with another kind or place is an error that changes nothing, the same one changes the value at most |
| JamHeap.FixedRegionsFit | sw/vladik/jtag/jam/jamheap.c:56-64 | The tables three modules place in the workspace do not overlap and end where the heap begins |
| JamHeap.Workspace.CheckSize | sw/vladik/jtag/jam/jamheap.c:66-73 | Initialisation succeeds exactly when the fixed tables fit |
| JamHeap.Workspace.AddHeapRecord | sw/vladik/jtag/jam/jamheap.c:107-249 | A record of 28 bytes more than the array is handed out exactly when the two ends do not cross, apart from everything else handed out; the ends move even when it is not |
| JamHeap.Workspace.AddSymbolRecord | sw/vladik/jtag/jam/jamsym.c:378-401 | The same for symbol records of 56 bytes growing downwards |
| JamHeap.Workspace.GetTempWorkspace | sw/vladik/jtag/jam/jamheap.c:254-283 | Temporary space is apart from everything handed out |
| JamHeap.HandedApart | sw/vladik/jtag/jam/jamheap.c:107-249 | In every run of these calls, failed ones included, all regions handed out are apart and inside the workspace |
| JamHeap.HandedHaveRoom | sw/vladik/jtag/jam/jamheap.c:173-200 | Every successful call of a run gets 28 bytes more than its array takes, a symbol record 56 |
| JamHeap.FailureIsFinal | sw/vladik/jtag/jam/jamheap.c:173-200 | After one failure nothing more is handed out |
| JamHeap.HeapList.Link | sw/vladik/jtag/jam/jamheap.c:205-233 | Adds a record before the others; the first one ever added points to itself |
| JamHeap.HeapList.Free | sw/vladik/jtag/jam/jamheap.c:83-102 | Every record is freed exactly once, newest first |
| JamCrc.CrcUpdate | sw/vladik/jtag/jam/jamcrc.c:35-67 | The eight shifts of one byte |
| JamCrc.ShiftIsLinear | sw/vladik/jtag/jam/jamcrc.c:55-64 | The register is linear in its contents and its input |
| JamCrc.WindowDetected | sw/vladik/jtag/jam/jamcrc.c:35-67 | Two messages that differ only within 16 bits and leave the same register are the same |
| JamCrc.BurstDetected | sw/vladik/jtag/jam/jamcrc.c:35-85 | Messages of one length that differ, but only within 16 neighbouring bits, have different CRCs |
| JamCrc.ResidueIsConstant | sw/vladik/jtag/jam/jamcrc.c:35-85 | A message followed by its complemented CRC, low byte first, leaves 0xF0B8 |
| JamCrcScan.CheckCrc | sw/vladik/jtag/jam/jamcrc.c:100-292 | The scanning loop with its queues and flags returns the verdict of the scanner function |
| JamCrcScan.Stream.FinishStatement | sw/vladik/jtag/jam/jamcrc.c:178-213 | White space, four digits, white space and a semicolon; everything else is an error |
| JamCrcScan.EnclosedIsOver | sw/vladik/jtag/jam/jamcrc.c:148-246 | Comments up to the end of their line and strings up to their quotation mark are passed over, the word CRC included, and leave the statement they stand in as it was |
| JamCrcScan.StatementIsOver | sw/vladik/jtag/jam/jamcrc.c:167-232 | A statement other than CRC is passed over up to its semicolon, whatever words stand behind its name |
| JamCrcScan.DosLineEndsDoNotMatter | sw/vladik/jtag/jam/jamcrc.c:112-117 | Carriage returns in front of any newlines change neither status nor expected nor actual CRC |
| JamCrcScan.StatementIsFound | sw/vladik/jtag/jam/jamcrc.c:167-213 | A CRC statement behind a text without one is judged by the CRC of that text where the scanner is receptive, and passed over where it is not |
| JamCrcScan.SignedIsAccepted | sw/vladik/jtag/jam/jamcrc.c:100-292 | A text behind which a CRC statement is seen is accepted with its own CRC |
| JamCrcScan.CommentedIsAccepted | sw/vladik/jtag/jam/jamcrc.c:148-246 | A comment on the line before the CRC statement does no harm |
| JamCrcScan.SignedInLowerCase | sw/vladik/jtag/jam/jamcrc.c:76-96 | The CRC may be written in lower case |
| JamCrcScan.DamagedIsAcceptedIff | sw/vladik/jtag/jam/jamcrc.c:100-292 | An accepted program whose text before the CRC statement is damaged in any way is accepted again exactly when a CRC statement arose in it that is right; or none arose, the old one is still seen, and the CRC is what it was; or the old one is passed over and a right one follows |
| JamCrcScan.DamageIsDetected | sw/vladik/jtag/jam/jamcrc.c:100-292 | Damage that changes the CRC is refused when no CRC statement arose from it and the word CRC does not stand between white space behind the statement: with a CRC error where the statement is still seen, else for want of one |
| JamCrcScan.BurstChangesCrc | sw/vladik/jtag/jam/jamcrc.c:35-85 | Damage within 16 neighbouring bits that makes and removes no carriage return changes the CRC |
| JamCrcScan.BurstIsDetected | sw/vladik/jtag/jam/jamcrc.c:100-292 | Such damage is refused when no CRC statement arose from it and none follows |
| JamCrcScan.LostInReturnIff | sw/vladik/jtag/jam/jamcrc.c:148-150 | A character that becomes a carriage return drops out of the CRC, which stays the same exactly when the character had left the register as it was |
| JamCrcScan.DamageCanMakeAStatement | sw/vladik/jtag/jam/jamcrc.c:167-213 | One changed letter can make an accepted CRC statement out of another statement, so the condition that none arises is needed |
| JamCrcScan.DamageCanHideInReturn | sw/vladik/jtag/jam/jamcrc.c:148-150 | One changed bit can turn a letter into a carriage return unnoticed, so the condition on carriage returns is needed |
| JamExp.Exponentiate | sw/vladik/jtag/jam/jamexp.c:266-289 | The result is the power, and no product on the way is larger than it |
| JamExp.SquareRoot | sw/vladik/jtag/jam/jamexp.c:294-334 | The result is the root rounded down exactly for numbers below 2^30, and zero for negative ones |
| JamExp.Log2 | sw/vladik/jtag/jam/jamexp.c:660-690 | The logarithm rounded up |
| JamExp.CeilOfSqrt | sw/vladik/jtag/jam/jamexp.c:693-739 | The root rounded up, exactly for numbers below 2^30; negative numbers are an overflow |
| AsyncRing.TidyKept | sw/vladik/cryptodev-linux-1.6/ioctl.c:414-618 | Every step keeps each item in exactly one place |
| AsyncRing.AccountedKept | sw/vladik/cryptodev-linux-1.6/ioctl.c:414-618 | Every step keeps each accepted job with one item or delivered once |
| AsyncRing.FaithfulKept | sw/vladik/cryptodev-linux-1.6/ioctl.c:423-429 | Every step keeps each finished item with the outcome of its own job |
| AsyncRing.CountedKept | sw/vladik/cryptodev-linux-1.6/ioctl.c:549-585 | Every step keeps the count of items right and within 64 |
| AsyncRing.WakeupKept | sw/vladik/cryptodev-linux-1.6/ioctl.c:414-585 | Every step keeps a worker on its way to a queue that is not empty |
| AsyncRing.RingIsSafe | sw/vladik/cryptodev-linux-1.6/ioctl.c:414-618 | In every reachable state: one place per item, a right count, no job lost, delivered twice or with another's result, and no queue forgotten |
| AsyncRing.RefusedIff | sw/vladik/cryptodev-linux-1.6/ioctl.c:557-570 | A call is refused exactly when no item is free and there are 64 |
| AsyncRing.OpenHasSixteen | sw/vladik/cryptodev-linux-1.6/ioctl.c:445-483 | An opened device has sixteen items, all free |
| AsyncRing.InTurnIsFifo | sw/vladik/cryptodev-linux-1.6/ioctl.c:414-440 | However many workers there are, jobs come back in the order they were accepted as long as no two are busy at once |
| AsyncRing.FifoIff | sw/vladik/cryptodev-linux-1.6/ioctl.c:414-440 | Workers that run as they like are sure to keep the order exactly when there is not more than one of them |
| AsyncRing.TwoWorkersCanOvertake | sw/vladik/cryptodev-linux-1.6/ioctl.c:414-440 | Any two workers that run the work at once can let the second job overtake the first |
| AsyncRing.ReleaseFreesEverything | sw/vladik/cryptodev-linux-1.6/ioctl.c:486-526 | Release frees every item once; the number differs from itemcount by the failed allocations |
| CryptPrivState.CryptPriv.RunAll | sw/vladik/cryptodev-linux-1.6/ioctl.c:425-431 | The worker's loop, in place on the driver's record, is one step for each job on its private list |
| TlsRecord.PadRecord | sw/vladik/cryptodev-linux-1.6/authenc.c:289-299 | Appends 1 to blocksize equal bytes up to a whole block |
| TlsRecord.VerifyRecordPad | sw/vladik/cryptodev-linux-1.6/authenc.c:301-323 | Accepts exactly a padding whose bytes all name its length |
| TlsRecord.EncryptRecord | sw/vladik/cryptodev-linux-1.6/authenc.c:340-382 | The record is the encrypted padding of data and tag, and never longer than the space reserved for it |
| TlsRecord.RecordLayout | sw/vladik/cryptodev-linux-1.6/authenc.c:289-382 | What is encrypted is the data, the first bytes of the MAC of all that is authenticated, and bytes that name their number less one |
| TlsRecord.DecryptRecord | sw/vladik/cryptodev-linux-1.6/authenc.c:383-444 | The verdict on the decrypted bytes, after padding and tag are checked |
| TlsRecord.SealedOpens | sw/vladik/cryptodev-linux-1.6/authenc.c:329-445 | Every sealed record opens to the same bytes and length, within length plus a block plus the tag |
| TlsRecord.AcceptedIff | sw/vladik/cryptodev-linux-1.6/authenc.c:383-441 | With a hash a record is accepted exactly when its padding, if a block cipher is used, is well formed and the bytes before it end in the right tag |
| TlsRecord.ResealedIff | sw/vladik/cryptodev-linux-1.6/authenc.c:289-445 | Sealing what was accepted gives the same record exactly when its padding was the shortest |
| TlsRecord.WithoutHashAllAccepted | sw/vladik/cryptodev-linux-1.6/authenc.c:393-444 | Without a hash every record is accepted, and one with bad padding at full length |
| ScatterList.GetUserPages | sw/vladik/cryptodev-linux-1.6/zc.c:49-81 | The table denotes exactly the user's bytes, no entry crosses a page, and entries beyond the pages are empty; for no bytes only the end mark is set |
| ScatterList.ByteOfUser | sw/vladik/cryptodev-linux-1.6/zc.h:20-23 | Each byte of a buffer lies in the page of its address, at the same place in it, and the pages counted are the ones touched |
| ScatterList.SurplusPages | sw/vladik/cryptodev-linux-1.6/zc.c:160-180 | Empty entries at the end change nothing |
| ScatterList.Session.AdjustArray | sw/vladik/cryptodev-linux-1.6/zc.c:83-107 | The table doubles until it is large enough and keeps its entries |
| ScatterList.Session.GetUserbuf | sw/vladik/cryptodev-linux-1.6/zc.c:130-216 | Source and destination tables denote the two buffers; done in place the one table covers the destination exactly when the lengths agree |
| ScatterList.Advance | sw/vladik/cryptodev-linux-1.6/util.c:28-53 | The rest of the list behind that many bytes, changing one entry at most; nothing when the list is not longer |
| ScatterList.Copy | sw/vladik/cryptodev-linux-1.6/util.c:59-79 | The copied list denotes the first bytes of the other, or an error when there are not enough |
| ScatterList.Session.GetUserbufSrtp | sw/vladik/cryptodev-linux-1.6/authenc.c:106-176 | The destination list denotes the authenticated data from the difference on, the list of the authenticated data is unchanged, and the error cases are exactly the code's |
| UintArithmetic.ValueDetermines | sw/old/SW_TEST_MINER/hashblock.cpp:93-94 | Words are determined by the number they stand for |
| UintArithmetic.BaseUint.AddAssign | sw/old/SW_TEST_MINER/hashblock.cpp:211-221 | Addition modulo 2 to the width, also of a number to itself |
| UintArithmetic.BaseUint.Negate | sw/old/SW_TEST_MINER/hashblock.cpp:113-120 | The negative modulo 2 to the width |
| UintArithmetic.BaseUint.Not | sw/old/SW_TEST_MINER/hashblock.cpp:105-111 | The number subtracted from the largest of its width |
| UintArithmetic.BaseUint.SubAssign | sw/old/SW_TEST_MINER/hashblock.cpp:223-227 | Subtraction modulo 2 to the width |
| UintArithmetic.BaseUint.AddAssign64 | sw/old/SW_TEST_MINER/hashblock.cpp:229-235 | Addition of a 64-bit number |
| UintArithmetic.BaseUint.SubAssign64 | sw/old/SW_TEST_MINER/hashblock.cpp:237-243 | Subtraction of a 64-bit number |
| UintArithmetic.BaseUint.Assign64 | sw/old/SW_TEST_MINER/hashblock.cpp:133-140 | The number becomes the 64-bit number |
| UintArithmetic.BaseUint.Increment | sw/old/SW_TEST_MINER/hashblock.cpp:246-253 | One more, modulo 2 to the width |
| UintArithmetic.BaseUint.PostIncrement | sw/old/SW_TEST_MINER/hashblock.cpp:255-261 | The same, returning the number before |
| UintArithmetic.BaseUint.Decrement | sw/old/SW_TEST_MINER/hashblock.cpp:263-270 | One less, modulo 2 to the width |
| UintArithmetic.BaseUint.PostDecrement | sw/old/SW_TEST_MINER/hashblock.cpp:272-278 | The same, returning the number before |
| UintArithmetic.BaseUint.ShiftLeft | sw/old/SW_TEST_MINER/hashblock.cpp:177-192 | Multiplication by a power of two modulo the width, for any shift |
| UintArithmetic.BaseUint.ShiftRight | sw/old/SW_TEST_MINER/hashblock.cpp:194-209 | Division by a power of two, for any shift |
| UintArithmetic.BaseUint.Less | sw/old/SW_TEST_MINER/hashblock.cpp:281-291 | Comparison of the numbers |
| UintArithmetic.BaseUint.LessEqual | sw/old/SW_TEST_MINER/hashblock.cpp:293-303 | Comparison of the numbers |
| UintArithmetic.BaseUint.Greater | sw/old/SW_TEST_MINER/hashblock.cpp:305-315 | Comparison of the numbers |
| UintArithmetic.BaseUint.GreaterEqual | sw/old/SW_TEST_MINER/hashblock.cpp:317-327 | Comparison of the numbers |
| UintArithmetic.BaseUint.Equal | sw/old/SW_TEST_MINER/hashblock.cpp:329-335 | Equality of the numbers |
| UintArithmetic.BaseUint.Equal64 | sw/old/SW_TEST_MINER/hashblock.cpp:337-347 | Whether the number is the 64-bit number |
| UintArithmetic.BaseUint.IsZero | sw/old/SW_TEST_MINER/hashblock.cpp:97-103 | Whether the number is zero |
| UintArithmetic.BaseUint.GetHex | sw/old/SW_TEST_MINER/hashblock.cpp:361-367 | All hexadecimal digits of the number, highest first |
| UintArithmetic.BaseUint.SetHex | sw/old/SW_TEST_MINER/hashblock.cpp:369-399 | The number the digits stand for, after white space and an optional 0x, modulo 2 to the width |
| UintArithmetic.HexRoundTrip | sw/old/SW_TEST_MINER/hashblock.cpp:361-399 | Reading the text of a number gives the number |
| UintArithmetic.HexDigitIsPlace | sw/old/SW_TEST_MINER/hashblock.cpp:369-399 | A digit is worth its place among the hexadecimal digits, in either case |
| HashBlock.PaddingIsMinimal | sw/old/SW_TEST_MINER/hashblock.cpp:1025-1038 | The number of blocks is the smallest that holds message, marker and length |
| HashBlock.FormatHashBlocks | sw/old/SW_TEST_MINER/hashblock.cpp:1025-1038 | In place the message gets its marker, zeros and the low four bytes of its length, and nothing else changes |
| HashBlock.WrittenIsPaddedIff | sw/old/SW_TEST_MINER/hashblock.cpp:1032-1036 | That is the padding of section 5.1.1 of FIPS 180-4 exactly for messages below 2^29 bytes |
| HashBlock.PaddedAbc | sw/old/SW_TEST_MINER/hashblock.cpp:1025-1038 | The padded message abc is the one of section 5.1.1 of FIPS 180-4 |
| HashBlock.InitStateIsRoots | sw/old/SW_TEST_MINER/hashblock.cpp:1047-1049 | The initial state is made of the first 32 fractional bits of the square roots of the first eight primes |
| HashBlock.ReverseIsOtherOrder | sw/old/SW_TEST_MINER/hashblock.cpp:1014-1018 | Reversing the bytes of a word read in one order gives the word read in the other |
| HashBlock.ByteSwap | sw/old/SW_TEST_MINER/hashblock.cpp:898-915 | The bytes change places end for end |
| HashBlock.SwapWords | sw/old/SW_TEST_MINER/hashblock.cpp:1118-1120 | After the words are reversed in place the processor reads the words SHA-256 reads |
| HashBlock.Transform | sw/old/SW_TEST_MINER/hashblock.cpp:1051-1067 | One compression of the given words from the given state |
| HashBlock.MidstateHash | sw/old/SW_TEST_MINER/hashblock.cpp:1072-1152 | The midstate is the state after the first block, and the bytes printed as VER2 are the reversed double hash of the header |
| HashBlock.PlainHash | sw/old/SW_TEST_MINER/hashblock.cpp:957-985 | The bytes printed as VER1 are the reversed double hash of the header |

## Left out

- Addresses and byte order: words are bounded unsigned integers and memory is little-endian, as on the 32-bit ARM target; pointer arithmetic appears only in JamHeap and ScatterList, and structure sizes are those of that target.
- Failing allocations: where the C code allocates and checks for NULL, the model has room, except in JamHeap (workspace) and in the job ring, where a failed allocation is a step of its own.
- Linked lists: symbol chains, the driver's item lists and the done list are sequences; JamHeap.HeapList keeps real links.
- Concurrency granularity: one step of AsyncRing is everything done under one lock; scheduling, waiting queues and poll are not modelled.
- Cipher, MAC and SHA-256 compression: any functions, with the invertibility or length a lemma names; a failing cipher is reported as EINVAL, whatever the kernel's code would be.
- The hardware: a chain is any function from everything clocked so far to the next TDO level; delays and port access are not modelled.
- The register parameter: the DR and IR variants of scans, setters and buffers, and the BIN and HEX variants of the extractors, differ only in constants and are one method each.
- JamComp.Uncompress: requires well-formed input, because the code does not look at the -1 of its bit reader; its input is a value, since it is never written.
- JamAca.ReadCompressed: requires that the text fits the temporary buffer, which the code sizes from the output and does not check.
- JamAca.ConvertLiteralAca: the check of the argument number is left out; the code reads the header and decompresses even after a bad character; what it then writes is not modelled.
- JamRlc.ExtractRlc: malformed run-length text is not modelled; the code writes past the array there.
- JamRlc.ReadRlc: the same holds for the stream.
- JamControl.LinkIsLinked: labels are resolved by the layout; searching for a label further ahead is left out.
- JamControl.Simulates: GOTO, EXIT inside a block, IF in front of FOR, NEXT, CALL and PUSH, procedures of Jam 2.0, and Boolean and array targets of POP are left out; every statement that is not one of the six is an effect on the variables, and integer variables are the only ones.
- JamExec.Interpreter.Execute: positions are statement numbers, not offsets in the file; the errors for a statement in the wrong phase, for a loop variable that is no integer and for expressions of another type are left out.
- JamSym.SymbolTable.GetRecord: the scope rules of Jam 2.0 are left out; in Jam 1.x every symbol is in scope.
- JamSym.SymbolTable.AddSymbol: assumes room for the record; running out of it is in JamHeap.Workspace.AddSymbolRecord.
- JamHeap.Workspace.AddHeapRecord: the needed space is given and not negative; its computation from the dimension can overflow for dimensions the model does not cover.
- JamExp.Exponentiate: computes on unbounded integers; its peak bounds every product, so a result that fits was reached without overflow.
- ScatterList.Session.GetUserbuf: an empty buffer at an address other than NULL is not modelled.
- ScatterList.Session.GetUserbufSrtp: no authenticated data together with a destination is left out.
- TlsRecord.DecryptRecord: an empty record under a block cipher, where the code looks for the padding in front of the buffer, is not modelled.
- The operators ^=, &= and |= of the fixed-width numbers, on numbers and on 64-bit numbers, which combine the words one by one, and getdouble.
- HashBlock.MidstateHash: the digest buffer with its padding behind it is put together as a sequence; FormatHashBlocks, the byte swaps and byte_swap work in place.
- The expression parser, CEIL of a division and FLOOR: evaluation is a parameter in JamControl, and the two functions do not do what their names say.
- VECTOR, PRINT, EXPORT and NOTE statements, comma-separated arrays, argument slicing: string handling with nothing to prove about it.
- Device access, ioctl copying, the OpenSSL engine, the serial library and the memory tester.
