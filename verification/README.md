# Verified model of a GDB/MI debug runner

The repository drives a program under GDB. It reads GDB/MI output with a PEG grammar,
writes GDB/MI commands, handles breakpoint stops in a loop that calls plug-ins, and
serves the system calls of a newlib target through a host plug-in. This project models
those pieces in Dafny and proves what they keep, line by line and over whole runs.

`dafny verify dfyconfig.toml` verifies everything.

| files | what they model |
|---|---|
| `Text`, `CStrings` | `boost::replace_all`, the string rule and its escaping |
| `MiValues`, `MiParser` | values, their canonical text, and the recursive rules with the effects that survive a failed attempt |
| `MiSoundness`, `MiRoundTrip`, `MiExact` | what a match has taken, what reads back before any text, and the exact boundary |
| `MiNames` | the name matched last, which unnamed items inherit |
| `MiRecords`, `MiRecordLaws`, `MiResultRecords`, `MiRecordExact` | stream, async and result records, tokens, the end marker |
| `MiLookup`, `MiReplies`, `Numbers` | `find`, `find_if`, the accessors with their exceptions, numbers in text |
| `WriteBuffer`, `WriteRuns` | the target's write buffer as a class, and runs of it against a pure splitter |
| `ReadBuffer`, `ReadRuns` | the target's read buffer as a class, and runs of it against any host |
| `Bits`, `Memory`, `MemoryReplies` | bit rendering, hex, memory assembly, and memory read from the reply line |
| `StopLoop`, `StopRuns`, `StopLines` | the stop loop as a class, its runs, and the lines that drive it |
| `Commands`, `Paths` | command rendering and path normalisation |

How the grammar is modelled. PEGTL rewinds the input of a failed rule but not its
effects on the output. Every rule therefore returns what it has stored and the
thread-local name, also when it fails, and callers go on with both. Whether that shows
is then a theorem: it never does in a value, tuple, list or async record
(`SoundValue`, `AsyncSound`), it does in a result record (`RecordRead`,
`RecordSound`), and `FindInRecord` says exactly which lookups notice.

Result records. One would expect each record to be read into its results plus one empty
list at every boundary before a named follow-up. That is false of the code for some
names, as `variable` takes any character but `=`: a name that starts with a bracket
leaves a list that is not empty (`BracketName`), and a text at which a value can be
read is taken for an unnamed follow-up. `BoundaryExact`, `LeftoversExact` and
`RobustRecordExact` give the exact conditions; `PlainIsSeparate` gives one on names
alone. `RecordReadBack` is the exact round trip for all records: that no misreading
gives the right vector by chance is shown from the right end of the text.

Items are "readable" where they stand if each value is read there as itself, strings
collapsed, and each named follow-up is not taken for a value. "Robust" values have escapable strings, no empty tuple and no empty list of results,
non-empty names without `=`, no list of results whose first name starts with `]`, and
every non-empty list of values starts with a tuple. "Safe" values are the exact domain of the round trip before a given text: a
list of values is safe only if the attempt to read it as a list of results fails there.
"Collapsed" strings have two backslashes before a quote cut to one, as the second
replacement in the action of `cstring` does.

The hex encoder, the reply to a memory read and `wait_for_stop` follow
`src/mw/gdb/mi2/interpreter.cpp` (lines 2006-2012, 1980-1998 and 136-156), and the
accessors of values `include/mw/gdb/mi2/output.hpp` (lines 98-179); the table below cites
their callers.

## Where code and documentation differ

The model follows the code.

- Section 27.2.2 of the GDB manual allows `{}`; `tuple_rule` rejects it
  (`src/mw/gdb/mi2/output.cpp:323`). It knows notify records; `=` is stored as status
  (`src/mw/gdb/mi2/output.cpp:234-236`).
- `opt<one<'\r'>, eof>` at the end of a stream record is optional as a whole, so any
  text may follow (`src/mw/gdb/mi2/output.cpp:212`).
- A variable may contain quotes, brackets and commas (`src/mw/gdb/mi2/output.cpp:243`).
  Hence the misreadings of `StringListMisread`, `ListFirstMisread` and `BracketName`,
  and a list of results whose first name starts with `]` looks like `[]`.
- The comment at `src/mw/gdb/mi2/output.cpp:248` has unnamed follow-ups inherit a
  name. What they get is the variable matched last: a nested one if there is one, and
  behind a list of values the one that the abandoned attempt to read results has reached,
  which may be text of the list, of a string in it or of the line behind it
  (`MiNames.ValueName`, `InheritedFromList`, `HiddenInString`).
- Leading digits above 64 bits make the parser throw instead of refusing the line
  (`src/mw/gdb/mi2/output.cpp:369-383`).
- `offset` and `end` of a memory block are read without a base
  (`src/mw/gdb/mi2/types.cpp:499-500`), so text such as `0x10` counts as 0.
  `HexOffsetsExact` says when that does no harm.
- `mi_command` does not write the `nl` that section 27.2.1 of the GDB manual ends a
  command with (`include/mw/gdb/mi2/input.hpp:73-103`).
- A flush that meets exactly one pending byte goes back into the buffer
  (`example/mw_newlib_syscalls.c:108-110, 258-259`): a newline is doubled, any other
  byte lost. `WriteRuns.RunConserves` says exactly when no byte suffers.
- A refill that fails leaves `read_end` at -1, and the buffered read reports it as 0
  bytes (`example/mw_newlib_syscalls.c:166-186`).
- Two passes over `//` leave double slashes behind runs of more than four separators
  (`src/mw-newlib.cpp:352-353`).

## Model

| member | source | states |
|---|---|---|
| `Text.ReplaceAllIdentity` | src/mw/gdb/mi2/output.cpp:177-178 | a shortening replacement changes a text exactly when it contains what is replaced, and then makes it shorter |
| `CStrings.CString` | src/mw/gdb/mi2/output.cpp:165-183 | a matched string starts with a quote and leaves a suffix at least two characters shorter; a failed match leaves the input alone |
| `CStrings.ScanEscaped` | src/mw/gdb/mi2/output.cpp:165 | behind an escaped string the scanner stops at the closing quote, unless the string ends in a backslash: then it always runs past it |
| `CStrings.EscapeLaw` | src/mw/gdb/mi2/output.cpp:165-183 | exact escape law, before any text: a printed string is read back as itself iff it does not end in a backslash and has no two backslashes directly before a quote; then the rest is untouched |
| `CStrings.StringSound` | src/mw/gdb/mi2/output.cpp:165-183 | every match is the printed form of some string, and yields that string with two backslashes before a quote cut to one |
| `CStrings.CStringSound` | src/mw/gdb/mi2/output.cpp:165-183 | printing the decoded string gives the matched text iff no quote in the text has three backslashes before it |
| `CStrings.CStringAccepts` | src/mw/gdb/mi2/output.cpp:165-183 | every text the rule accepts starts with the printed form of a string that does not end in a backslash, and is read as that string, collapsed |
| `MiParser.ParseResult` | src/mw/gdb/mi2/output.cpp:308-313 | terminates on every input; a success consumes input, a failure rewinds it |
| `MiParser.ParseMoreResults` | src/mw/gdb/mi2/output.cpp:341 | terminates and never fails |
| `MiParser.ParseTuple` | src/mw/gdb/mi2/output.cpp:323 | terminates; a success consumes input, a failure rewinds it |
| `MiParser.ParseList` | src/mw/gdb/mi2/output.cpp:326-329 | terminates although up to three alternatives read the same text; a success consumes input, a failure rewinds it; which name the abandoned attempt leaves is told by the MiNames rows |
| `MiParser.ParseValue` | src/mw/gdb/mi2/output.cpp:331-335 | terminates by the measure (remaining length, rank of the rule); a success consumes input, a failure rewinds it |
| `MiParser.TupleSuffix` | src/mw/gdb/mi2/output.cpp:323 | what a tuple rule leaves is a suffix of its input (proper on success by ParseTuple) |
| `MiParser.ListSuffix` | src/mw/gdb/mi2/output.cpp:326-329 | what a list rule leaves is a suffix of its input (proper on success by ParseList) |
| `MiParser.ValueSuffix` | src/mw/gdb/mi2/output.cpp:308-335 | what the value rule leaves is a suffix of its input (proper on success by ParseValue) |
| `MiSoundness.SoundTuple` | src/mw/gdb/mi2/output.cpp:323 | every matched tuple is the canonical text of a non-empty well-formed tuple, and is returned with only its strings collapsed |
| `MiSoundness.SoundList` | src/mw/gdb/mi2/output.cpp:326-329 | every matched list is the canonical text of a well-formed list, and is returned with only its strings collapsed; nothing of the abandoned results attempt survives |
| `MiSoundness.SoundMoreResults` | src/mw/gdb/mi2/output.cpp:338-341 | a repetition that stops before anything but a comma has taken the canonical text of exactly the results it returns, strings collapsed: no element of a failed attempt is among them |
| `MiSoundness.SoundValue` | src/mw/gdb/mi2/output.cpp:79-129 | soundness on every input: what the value rule took is the canonical text of a well-formed tree, and the value returned is that tree with collapsed strings, although push_back and variant_elem act on failure |
| `MiSoundness.ExactlySound` | src/mw/gdb/mi2/output.cpp:308-335 | printing the returned value gives the text taken iff no string of the tree has two backslashes before a quote; so whenever no quote in the text has three before it |
| `MiRoundTrip.TupleStopsResults` | src/mw/gdb/mi2/output.cpp:326-328 | the attempt to read a list that starts with a tuple of robust fields as a list of results fails, whatever follows, although variable may swallow the brace; TupleIsNoResults has it for all tuples that are read back |
| `MiRoundTrip.RobustMoreResults` | src/mw/gdb/mi2/output.cpp:341 | printed robust results are read back exactly, with the right last name, before anything but a comma |
| `MiRoundTrip.RobustValue` | src/mw/gdb/mi2/output.cpp:308-335 | completeness: a value whose strings are escapable and whose lists are empty, of results, or tuple-first is read back exactly before any text, and last_var_name is the variable printed last, nested ones included |
| `MiExact.ValueIgnoresLast` | src/mw/gdb/mi2/output.cpp:246-263 | the thread-local name never influences what the value rule matches, returns or leaves |
| `MiExact.ExactValue` | src/mw/gdb/mi2/output.cpp:308-335 | exact round trip for every value, every rest of input and every thread-local name: the printed value is read back iff it is Safe there, and then the rest is untouched |
| `MiExact.RobustIsSafe` | src/mw/gdb/mi2/output.cpp:308-335 | the values of RobustValue are safe before every text |
| `MiExact.StringListMisread` | src/mw/gdb/mi2/output.cpp:326-329 | a whole family read wrongly: a list of one string, followed by another result and a bracket, is taken for a list of one result whose name contains string, bracket and comma |
| `MiExact.StringListRejected` | src/mw/gdb/mi2/output.cpp:326-335 | a list of results holding a one-string list and another result behind it is rejected; the smallest is [l=["x"],m="1"] |
| `MiExact.ListFirstMisread` | src/mw/gdb/mi2/output.cpp:326-329 | a list that starts with a list of robust results is never read back, whatever its other elements and the text behind: it is taken for a list of results, the first named with a bracket in front, and ends at the inner bracket |
| `MiExact.TupleIsNoResults` | src/mw/gdb/mi2/output.cpp:326-328 | the attempt to read results in front of a tuple fails for every tuple that is itself read back there |
| `MiExact.TupleFirstExact` | src/mw/gdb/mi2/output.cpp:326-329 | a list that starts with a tuple is read back iff each of its elements is |
| `MiRecords.ClassLength` | src/mw/gdb/mi2/output.cpp:151-154 | the class is the longest prefix of letters, digits and dashes |
| `MiRecords.ParseFollowUps` | src/mw/gdb/mi2/output.cpp:353-358 | terminates and never fails |
| `MiRecords.ParseRecordResults` | src/mw/gdb/mi2/output.cpp:349-359 | terminates and never fails |
| `MiRecordLaws.StreamExact` | src/mw/gdb/mi2/output.cpp:186-213 | a printed stream record yields its content iff the content is escapable, whatever text follows, and always the right kind |
| `MiRecordLaws.StreamRead` | src/mw/gdb/mi2/output.cpp:186-213 | a sign, a printed string that does not end in a backslash, and any text behind are a stream record of that kind, the string collapsed |
| `MiRecordLaws.StreamSound` | src/mw/gdb/mi2/output.cpp:186-213 | and nothing else is a stream record |
| `MiRecordLaws.GdbEndExact` | src/mw/gdb/mi2/output.cpp:490-495 | a line is the end marker iff it starts with (gdb) |
| `MiRecordLaws.AsyncRoundTrip` | src/mw/gdb/mi2/output.cpp:338-342 | every asynchronous record of robust results, with or without token and carriage return, is read back with token, class and results; + and = both become status |
| `MiRecordLaws.AsyncSound` | src/mw/gdb/mi2/output.cpp:338-342 | every accepted text is kind, class, canonical text of well-formed results and at most a carriage return; these results are returned with collapsed strings and nothing else |
| `MiRecordLaws.AsyncExact` | src/mw/gdb/mi2/output.cpp:338-342 | exact law: the printed record is read back as it is iff its results are safe in front of its end |
| `MiNames.ValueName` | src/mw/gdb/mi2/output.cpp:246-263 | the exact variable matched last behind every value that is read, before any text and after any name: that of its last result or, in a list of values, what the abandoned attempt to read results has reached, unless a value behind it matched one |
| `MiNames.ListForgets` | src/mw/gdb/mi2/output.cpp:326-329 | the name behind a list of values that is not empty does not depend on the name before the list |
| `MiNames.StringListName` | src/mw/gdb/mi2/output.cpp:326-329 | behind a list of strings it is the name that the attempt has reached |
| `MiNames.AttemptTakesAll` | src/mw/gdb/mi2/output.cpp:243-260 | without = in the text the attempt takes all of it for one name |
| `MiNames.AttemptGoesOn` | src/mw/gdb/mi2/output.cpp:326-328 | behind a name and a value that can be read, the attempt has reached the name behind that value or, after a comma, what a new attempt reaches there |
| `MiNames.AttemptStops` | src/mw/gdb/mi2/output.cpp:326-328 | behind a name and a text at which no value can be read, it has reached what the failed value has |
| `MiNames.FailedValue` | src/mw/gdb/mi2/output.cpp:331-335 | what a failed value has reached, by its first character: in a tuple what its results reach, in a list what its values reach behind the attempt to read results, elsewhere nothing |
| `MiNames.ReachedInList` | src/mw/gdb/mi2/output.cpp:326-329 | values one after the other reach what the last one leaves, or what is reached behind the last comma |
| `MiNames.StringsBeforeResults` | src/mw/gdb/mi2/output.cpp:326-329 | a list of strings with robust results behind it: the attempt takes the list and the first name for one name and reads the results to their end, so the name is their last one |
| `MiNames.HiddenInString` | src/mw/gdb/mi2/output.cpp:326-335 | a name inside a string: between a brace that follows a = and the next =, with no value behind, it becomes the name behind the list; in ^done,a=["x={k=z"],"y" the second result is named k |
| `MiResultRecords.ClassRead` | src/mw/gdb/mi2/output.cpp:132-147 | each of the five result classes is recognised by its text, whatever follows |
| `MiResultRecords.LeftoverExact` | src/mw/gdb/mi2/output.cpp:86-128 | what an attempt to read a value stores, on every text: a failed one an empty list iff the text does not start with a bracket; the thread-local name makes no difference |
| `MiResultRecords.BoundaryExact` | src/mw/gdb/mi2/output.cpp:353-358 | exact law of a boundary, on every text behind a comma: the inner repetition gives way iff no value can be read there, leaving one element; it leaves one empty list iff the text does not start with a bracket either |
| `MiResultRecords.PlainIsSeparate` | src/mw/gdb/mi2/output.cpp:353-358 | names that do not start with a quote, brace or bracket meet both conditions of RobustRecordExact |
| `MiResultRecords.FollowUpsRead` | src/mw/gdb/mi2/output.cpp:349-359 | on any mix of named and unnamed items that are readable where they stand, the two repetitions produce exactly their elements: before each named one what the attempt left, each unnamed one under the name that NameBehind tells |
| `MiResultRecords.RecordRead` | src/mw/gdb/mi2/output.cpp:345-360 | completeness: every record of readable items, the first one named, with or without token and carriage return, is accepted, and its vector is exactly Vector: the items, names inherited by NameBehind, and one leftover at each boundary before a named one |
| `MiResultRecords.RobustRecordRead` | src/mw/gdb/mi2/output.cpp:345-360 | the same for robust items at whose named follow-ups no value can be read, with the vector written in terms of the items alone, nested last names included |
| `MiResultRecords.RecordSound` | src/mw/gdb/mi2/output.cpp:345-360 | soundness, the other half: every accepted text is the class and the canonical text of such readable items, and its vector is exactly Vector, leftovers and inherited names included |
| `MiResultRecords.LeftoversExact` | src/mw/gdb/mi2/output.cpp:353-358 | for all readable items: all leftovers are empty lists iff no named follow-up starts with a bracket |
| `MiResultRecords.RecordLeftovers` | src/mw/gdb/mi2/output.cpp:345-360 | the same for every accepted text |
| `MiResultRecords.BracketName` | src/mw/gdb/mi2/output.cpp:353-358 | a family that fails: before a follow-up whose name starts with a bracket a list holding an empty list is left over; the smallest is ^done,a="1",[b="2" |
| `MiRecordExact.SameValue` | src/mw/gdb/mi2/output.cpp:331-335 | a text that ends in one printed value and in another that collapses to it ends in one and the same, unless one was cut out behind a backslash |
| `MiRecordExact.SameItems` | src/mw/gdb/mi2/output.cpp:345-360 | the text of a record and a vector that shows its items determine the items |
| `MiRecordExact.RecordReadBack` | src/mw/gdb/mi2/output.cpp:345-360 | exact round trip, for all items whatsoever: a printed record is accepted with a vector that shows its items iff each is safe in front of its tail and no value can be read at a named follow-up |
| `MiRecordExact.RecordExact` | src/mw/gdb/mi2/output.cpp:345-360 | with one empty list at each boundary before a named follow-up iff, besides, none of these starts with a bracket |
| `MiRecordExact.RobustRecordExact` | src/mw/gdb/mi2/output.cpp:345-360 | a record of robust items is accepted with exactly the expected vector iff at no named follow-up a value can be read and none starts with a bracket |
| `MiRecordExact.InheritedFromList` | src/mw/gdb/mi2/output.cpp:345-360 | a family with odd names: a value behind a list of strings is named by the text from the list to the end of the line, if there is no = in it; in ^done,a=["x"],"y" the second result is named "x"],"y" |
| `MiRecordLaws.LinesAreIndependent` | src/mw/gdb/mi2/output.cpp:461-525 | the name earlier lines left in the thread-local variable changes nothing about a line |
| `MiRecordLaws.ExpectIsOpen` | src/mw/gdb/mi2/output.cpp:386-446 | expecting a token accepts r exactly when the open parse accepts (that token, r), for async and result records; tokens over 64 bits throw in both |
| `MiRecordLaws.OneRecogniser` | src/mw/gdb/mi2/output.cpp:451-525 | at most one of the stream, async, result and (gdb) recognisers accepts a line |
| `MiLookup.FindIf` | src/mw/gdb/mi2/types.cpp:50-59 | the value of the first result with this variable, none iff there is none |
| `MiLookup.FindInRecord` | src/mw/gdb/mi2/types.cpp:39-59 | exact effect of the leftovers on a record of named results: a key gets what is left over iff an earlier result, before the first of that name and not the last of all, ends in a nested variable of that name; else its true value |
| `MiLookup.ShadowIsEmpty` | src/mw/gdb/mi2/types.cpp:39-59 | that leftover is an empty list if no follow-up starts with a bracket |
| `MiLookup.WrongAnswer` | src/mw/gdb/mi2/types.cpp:39-59 | a lookup that goes wrong: in a={k="1"},k="2" the key k is answered with the empty list left over behind the tuple |
| `MiLookup.FindUnlessNested` | src/mw/gdb/mi2/types.cpp:39-59 | find and find_if give the true answer for every key that is no variable nested in a result in front of its own |
| `MiLookup.FindInElements` | src/mw/gdb/mi2/types.cpp:39-59 | exact lookup among follow-ups, named and unnamed mixed: the value of the first named one of that name, unless a leftover or an unnamed value stands in front of it under that name by inheritance |
| `MiLookup.FindInAccepted` | src/mw/gdb/mi2/types.cpp:39-59 | the same for every accepted record |
| `MiLookup.FindInParsedRecord` | src/mw/gdb/mi2/types.cpp:39-59 | the same from the text of the record to the answer of the lookup |
| `WriteBuffer.Syscalls.constructor` | example/mw_newlib_syscalls.c:102-104 | the buffer starts cleared, with a symbolic size of at least 2 |
| `WriteBuffer.Syscalls.HostWrite` | src/mw-newlib.cpp:458-470 | one host call with exactly the bytes of the range |
| `WriteBuffer.Syscalls.FlushWrite` | example/mw_newlib_syscalls.c:106-114 | pending bytes leave in one host call to their own descriptor, except one pending byte, which re-enters the buffer: a newline goes out twice, another byte not at all; the state is cleared; RunCalls says the same without Emit |
| `WriteBuffer.Syscalls.BufferedWrite` | example/mw_newlib_syscalls.c:116-133 | host calls and new state for every buffer state, the re-entry on the buffer itself included; indices stay in range, the recursion ends, and no newline stays pending |
| `WriteBuffer.Syscalls.Write` | example/mw_newlib_syscalls.c:256-272 | one byte goes through the buffer; any other length goes to the host as it is and leaves the buffer alone |
| `WriteBuffer.Syscalls.Close` | example/mw_newlib_syscalls.c:205-219 | a close flushes the buffer, whatever descriptor it is for |
| `WriteRuns.StepIsSplit` | example/mw_newlib_syscalls.c:106-133 | each write or close is one step of the splitter that looks ahead instead of keeping a state |
| `WriteRuns.RunIsSplit` | example/mw_newlib_syscalls.c:102-133 | refinement over every run: the host calls are the segments of the splitter (cut after a newline, at B bytes, at a descriptor change, at a close) under the one-byte rule, and the rest is pending |
| `WriteRuns.SplitterConserves` | example/mw_newlib_syscalls.c:116-133 | the splitter neither drops, repeats, reorders nor redirects a byte |
| `WriteRuns.SplitterShape` | example/mw_newlib_syscalls.c:116-133 | every segment has 1 to B bytes and a newline at most at its end; nothing pending contains one |
| `WriteRuns.RunConserves` | example/mw_newlib_syscalls.c:102-133 | host bytes and pending bytes are together the bytes written, in order and for their own descriptors, iff no segment of exactly one byte was cut |
| `WriteRuns.RunCalls` | example/mw_newlib_syscalls.c:102-133 | call by call, from the segments alone: each host call goes to the descriptor its segment was written to and carries its bytes; a lone newline is doubled, any other lone byte has no call |
| `WriteRuns.RunByDescriptor` | example/mw_newlib_syscalls.c:102-133 | descriptor by descriptor: the host gets the bytes written to it in complete segments, each lone newline doubled, every other lone byte left out |
| `ReadBuffer.Syscalls.constructor` | example/mw_newlib_syscalls.c:137-140 | the buffer starts free |
| `ReadBuffer.Syscalls.HostRead` | src/mw-newlib.cpp:374-389 | the host writes a zero-padded block of the requested length to the target and returns how many bytes of it count |
| `ReadBuffer.Syscalls.ReadClear` | example/mw_newlib_syscalls.c:142-147 | the buffer is free afterwards |
| `ReadBuffer.Syscalls.ReadInitBuffer` | example/mw_newlib_syscalls.c:149-162 | the buffer belongs to the descriptor and holds one host answer |
| `ReadBuffer.Syscalls.CopyAvailable` | example/mw_newlib_syscalls.c:180-186 | the copy loop delivers the front of the unread bytes, as many as fit, and touches nothing else; how many these are is told by ReadDelivers |
| `ReadBuffer.Syscalls.ReadBufferedInto` | example/mw_newlib_syscalls.c:164-187 | refills only an exhausted full buffer, then delivers from it; every index stays in range, also after a failed refill |
| `ReadBuffer.Syscalls.ReadInto` | example/mw_newlib_syscalls.c:235-254 | return value, memory of the caller, new buffer state and host calls for each of the three branches, as ReadDelivers, ReadAsks and ReadIsNext tell them |
| `ReadBuffer.Syscalls.Close` | example/mw_newlib_syscalls.c:205-219 | the buffer is freed iff it belongs to the closed descriptor |
| `ReadRuns.ReadDelivers` | example/mw_newlib_syscalls.c:164-254 | for every state and host: returns how many bytes it passed on, fewer than asked for from the buffer only if that is empty afterwards; -1 iff a direct host read failed; memory gets these bytes, then at most zeros |
| `ReadRuns.ReadAsks` | example/mw_newlib_syscalls.c:164-254 | the host is asked for a whole buffer when one is to be filled, never while bytes of the descriptor wait, and else for what the caller asked |
| `ReadRuns.ReadIsNext` | example/mw_newlib_syscalls.c:164-254 | against a file host, in every state a run reaches, a read delivers exactly the next bytes of the file, as many as were asked for and are at hand |
| `ReadRuns.FirstRead` | example/mw_newlib_syscalls.c:164-254 | so a first read of at most a buffer gets the front of the file, as much as asked for or all there is |
| `ReadRuns.HostReadsAreFull` | example/mw_newlib_syscalls.c:149-187 | a program that reads one descriptor in pieces makes the host read whole buffers; only the last answer can be short |
| `ReadRuns.StepConserves` | example/mw_newlib_syscalls.c:164-254 | one read or close on any descriptor keeps the conservation of every descriptor |
| `ReadRuns.RunConserves` | example/mw_newlib_syscalls.c:137-254 | over every run of reads and closes, any descriptors, any host, failures included: since its last close, the host bytes of a descriptor are the bytes delivered followed by those waiting in the buffer |
| `ReadRuns.RunReads` | example/mw_newlib_syscalls.c:137-254 | against a file host, the host bytes are a prefix of the file, and all of it once a fill came back short |
| `ReadRuns.ZeroIsEnd` | example/mw_newlib_syscalls.c:149-187 | a read of at least one byte returns 0 iff the whole file has been delivered |
| `ReadRuns.EndOfFile` | example/mw_newlib_syscalls.c:149-187 | the same after every run from the start |
| `ReadRuns.EndLasts` | example/mw_newlib_syscalls.c:149-187 | once everything is delivered it stays so over every run without a close of that descriptor |
| `ReadRuns.ZeroLasts` | example/mw_newlib_syscalls.c:149-187 | after any run from the start, a read that returns 0, and any further run without a close of that descriptor, every read of it returns 0 |
| `Bits.AppendByte` | src/mw/gdb/mi2/frame_impl.cpp:293-300 | the eight digits of a byte, highest first |
| `Bits.RenderMemory` | src/mw/gdb/mi2/frame_impl.cpp:285-301 | the loop over the bytes in reverse gives the digits that MemoryValue and RenderersAgree evaluate |
| `Bits.PushBack` | src/mw/gdb/mi2/frame_impl.cpp:364-374 | a digit is dropped iff it is a zero before the first one |
| `Bits.RenderNumber` | src/mw/gdb/mi2/frame_impl.cpp:355-390 | the loop over the bytes of the number gives the text that NumberBitsValue evaluates |
| `Bits.MemoryValue` | src/mw/gdb/mi2/frame_impl.cpp:285-301 | 8 * size digits worth the little-endian value of the bytes |
| `Bits.NumberBitsValue` | src/mw/gdb/mi2/frame_impl.cpp:355-390 | digits without a leading zero, "0" for zero, worth the number modulo 2^(8 * size) |
| `Bits.CanonicalUnique` | src/mw/gdb/mi2/frame_impl.cpp:364-389 | such a text is determined by its value, so the previous row leaves no choice |
| `Bits.RenderersAgree` | src/mw/gdb/mi2/frame_impl.cpp:285-390 | the bytes of an object and the number it stands for give the same digits; without leading zeros the first text is the second |
| `Memory.DecodeHex` | src/mw/gdb/mi2/types.cpp:502-525 | the loop yields half as many bytes as characters, each from its own two, zero for no digit |
| `Memory.EncodeHex` | src/mw/gdb/mi2/frame_impl.cpp:562-565 | the loop of data_write_memory_bytes writes the hex text that HexRoundTrip decodes |
| `Memory.HexRoundTrip` | src/mw/gdb/mi2/types.cpp:502-525 | decoding what was encoded gives the same bytes |
| `Memory.HexBytesAt` | src/mw/gdb/mi2/types.cpp:520-525 | each byte from its own two characters, the higher half first; an odd last character is ignored |
| `Memory.HexDigits` | src/mw/gdb/mi2/types.cpp:506-518 | the values of the hex digits, upper-case like lower-case |
| `Memory.OtherCharacters` | src/mw/gdb/mi2/types.cpp:506-518 | every other character counts 0 |
| `Memory.ReadMemory` | src/mw/gdb/mi2/frame_impl.cpp:545-560 | the loop computes the assembly that the next two rows describe |
| `Memory.AssembleExact` | src/mw/gdb/mi2/frame_impl.cpp:549-559 | for blocks in any order, overlapping or not: as long as the last block reaches; at each index the byte of the last block to touch it, 0 where none does |
| `Memory.PiecesAssemble` | src/mw/gdb/mi2/frame_impl.cpp:549-559 | pieces of one memory with rising ends give its byte at every covered index, 0 in every gap, and nothing beyond the last |
| `MemoryReplies.ReplyAssembles` | src/mw/gdb/mi2/types.cpp:494-528 | from the text of any reply: read_memory returns the assembly of its blocks at the offsets as the code reads them |
| `MemoryReplies.ReplyIsMemory` | src/mw/gdb/mi2/frame_impl.cpp:545-560 | end to end: if the reply writes its offsets in decimal, the vector is the memory where a block covers it, 0 in the gaps |
| `MemoryReplies.HexOffsetIsZero` | src/mw/gdb/mi2/types.cpp:499-500 | an offset written with 0x is read as 0, because no base is passed |
| `MemoryReplies.HexOffsetsKeepLastBlock` | src/mw/gdb/mi2/frame_impl.cpp:545-560 | with such offsets the vector is the last block alone |
| `MemoryReplies.HexOffsetsExact` | src/mw/gdb/mi2/frame_impl.cpp:545-560 | with hex offsets the vector is the assembly at the true offsets iff the last block belongs at offset 0 |
| `MemoryReplies.MemoryExact` | src/mw/gdb/mi2/types.cpp:494-528 | for every record: it is accepted iff its class is done and memory is a list of tuples whose begin is hex, offset and end decimal numbers of 64 bits and contents text; what is returned is the assembly of exactly these blocks |
| `MemoryReplies.OtherReplyThrows` | src/mw/gdb/mi2/frame_impl.cpp:545-560 | from the text of any readable reply: another token is not accepted, any class but done throws, whatever its results |
| `Numbers.NumberForm` | src/mw/gdb/mi2/types.cpp:12-26 | blanks, a sign, in base 16 a prefix, and digits, followed by anything that is no digit: that number is read, and what follows does not matter |
| `Numbers.NumberSound` | src/mw/gdb/mi2/types.cpp:12-26 | and nothing else is read as a number |
| `Numbers.UnsignedIsRead` | src/mw/gdb/mi2/types.cpp:12-26 | numbers up to 64 bits are read as themselves, larger ones throw, negative ones wrap around |
| `Numbers.IntIsRead` | src/mw/gdb/process.cpp:178 | every int is read as itself if it has 32 bits, otherwise it throws |
| `MiReplies.NumberErrors` | src/mw/gdb/mi2/types.cpp:39-48 | a number that is looked up is read iff it is there, is text and is a number; why it throws otherwise |
| `StopLines.ValueArgsExact` | src/mw/gdb/mi2/types.cpp:170-182 | arguments with values: readable iff each is a tuple with a name and a value in text; they come out one by one, in order |
| `StopLines.ResultArgsExact` | src/mw/gdb/mi2/types.cpp:183-196 | arguments without values: readable iff each is text, which becomes the name |
| `StopLines.FrameExact` | src/mw/gdb/mi2/types.cpp:154-200 | exactly which frames can be read: every field may be missing, but what is there has its type, those that nothing uses included |
| `StopLines.HitExact` | src/mw/gdb/process.cpp:178-180 | exactly which stops can be read as hits: bkptno is an int, frame a tuple that is such a frame |
| `StopLoop.FindArg` | src/mw/gdb/process.cpp:215 | the first argument of that name, none iff there is none |
| `StopLoop.Process.constructor` | src/mw/gdb/process.cpp:109-113 | no breakpoints, no exit |
| `StopLoop.Process.SetExit` | include/mw/debug/process.hpp:82-87 | exited with this code |
| `StopLoop.Process.InitBps` | src/mw/gdb/process.cpp:109-150 | the map of all answers before the first unexpected one; throws that one, skips refused breakpoints |
| `StopLoop.Process.Invoke` | src/mw/gdb/process.cpp:246 | one invocation; the status is the last code the plug-in set, if any |
| `StopLoop.Process.ArgNames` | src/mw/gdb/process.cpp:189-207 | names from the cache or from GDB; asked only if unknown, stored only if the frame has an address |
| `StopLoop.Process.CollectArgs` | src/mw/gdb/process.cpp:209-231 | the loop over the names builds the arguments that ArgsFollowNames describes |
| `StopLoop.Process.MakeInvocation` | src/mw/gdb/process.cpp:182-244 | identifier, arguments, file and line, with their defaults when the frame lacks them; the run rows say so without naming the function |
| `StopLoop.Process.HandleHit` | src/mw/gdb/process.cpp:178-249 | one hit, with every way it can end; RunAccount says which way when |
| `StopLoop.Process.Finish` | src/mw/gdb/process.cpp:255-262 | 0 for exited-normally, the octal exit code for exited, nothing otherwise |
| `StopLoop.Process.HandleBps` | src/mw/gdb/process.cpp:163-264 | the loop does exactly what the run function says: same trace, same ending, same exit status; RunAccount and the rows behind it tell that run from its stops alone |
| `StopRuns.RunAccount` | src/mw/gdb/process.cpp:163-264 | exact account of every run, told from its stops: each readable hit of a known number is answered by one call to its breakpoint, with id, file, line and arguments of its frame; the run goes on iff the plug-in sets no exit; it ends as its last stop demands |
| `StopRuns.RunQuestions` | src/mw/gdb/process.cpp:189-207 | exact questions of every run: one at each stop reached whose names are needed and not cached, and no other |
| `StopRuns.RunShape` | src/mw/gdb/process.cpp:163-264 | every run is a number of rounds wait, invoke, continue, and then the start of one more that tells the ending; an invocation without a continue iff a plug-in set the exit |
| `StopRuns.CallsAndContinues` | src/mw/gdb/process.cpp:246-252 | invocations equal continues, plus one exactly when a plug-in ended the run |
| `StopRuns.RunExit` | src/mw/gdb/process.cpp:248-262 | the final status is the last code of the plug-in at the last invocation, 0 for exited-normally, the octal exit code for exited, and otherwise unchanged |
| `StopRuns.CacheAgrees` | src/mw/gdb/process.cpp:167-235 | if the names at an address never change, the run with the cache and the one that asks at every stop make the same invocations with the same arguments, end alike and leave the same status |
| `StopRuns.AskedOnce` | src/mw/gdb/process.cpp:191-207 | the names at an address are asked for at most once in a run, never if already cached |
| `StopRuns.RegisteredExact` | src/mw/gdb/process.cpp:111-122 | a number is in the map iff GDB confirmed it, and leads to the last breakpoint that was given it |
| `StopRuns.CallsAreDispatched` | src/mw/gdb/process.cpp:246 | every invocation of every run goes to the breakpoint confirmed last under the number of the hit |
| `StopRuns.ArgsFollowNames` | src/mw/gdb/process.cpp:209-231 | as many arguments as names, in their order, each with its name and the value of the text of the first frame argument of that name, or empty if the frame lacks it; arguments that are no names are dropped |
| `StopLines.StopLineIsRead` | src/mw/gdb/process.cpp:165 | wait_for_stop: a stop line of robust results reaches the loop as these results |
| `StopLines.ExitLineToCode` | src/mw/gdb/process.cpp:258-262 | from the line to the status: the octal exit code GDB writes is the one the run ends with |
| `StopLines.FrameIsRead` | src/mw/gdb/mi2/types.cpp:154-200 | a printed frame is read back whichever of its fields GDB left out: level, address, function, arguments, file, line and library |
| `StopLines.HitLineIsRead` | src/mw/gdb/process.cpp:178-180 | from the line to the hit: breakpoint number and frame as GDB wrote them, missing fields and argument texts included |
| `StopLines.HitLineToCall` | src/mw/gdb/process.cpp:178-249 | from the line to the call: the plug-in registered for its number is called with function, file, line and arguments that GDB wrote, and the run ends there iff it sets an exit |
| `StopLines.OtherLinesAreNoStops` | src/mw/gdb/process.cpp:165 | any other async line of robust results is no stop |
| `StopLines.ReasonAnywhere` | src/mw/gdb/process.cpp:165 | the reason is found wherever it stands, and the content is all the other results, in order |
| `Commands.AppendWords` | include/mw/gdb/mi2/input.hpp:93-100 | the loop appends each word with a blank in front |
| `Commands.MiCommand` | include/mw/gdb/mi2/input.hpp:73-103 | the line that the rows below show to carry the whole command |
| `Commands.RenderRoundTrip` | include/mw/gdb/mi2/input.hpp:36-50 | a reader of the documented syntax, c-strings with blanks included, gets the command back iff the token is not negative, the operation has no blanks, options and parameters are c-strings or start with no quote and have no blanks, and no option is "--" |
| `Commands.ReadAreWords` | include/mw/gdb/mi2/input.hpp:36-50 | what the reader takes for words are words, and their text is what was read |
| `Commands.ReadIsExpressible` | include/mw/gdb/mi2/input.hpp:36-50 | what the reader accepts is such a command |
| `Commands.ExpressibleInjective` | include/mw/gdb/mi2/input.hpp:73-103 | for such commands the line determines token, operation, options and parameters |
| `Commands.RenderInjective` | include/mw/gdb/mi2/input.hpp:73-103 | so it does for all commands whose operation, options and parameters have no blanks, quotes or not, with a token that is not negative and no option "--" |
| `Commands.HalvesOfAString` | include/mw/gdb/mi2/input.hpp:73-103 | the two kinds cannot be joined: a c-string with one blank and its two halves as words without blanks give the same line |
| `Commands.RenderedExample` | include/mw/gdb/mi2/input.hpp:73-103 | the parts in their places: 5-op -f -- a b c, and -exec-run without any |
| `Paths.NormaliseInPlace` | src/mw-newlib.cpp:350-353 | the three replacements turn every run of n separators into ceil(n/4) slashes and change nothing else |
| `Paths.ReplaceIsShrink` | src/mw-newlib.cpp:352-353 | one replacement halves every run of slashes, rounding up |
| `Paths.NormaliseIsShrink` | src/mw-newlib.cpp:350-353 | all three are the map from n to ceil(n/4) on runs of separators |
| `Paths.NormaliseKeepsPath` | src/mw-newlib.cpp:350-353 | no backslash is left, the sequence of non-empty components stays, and the path is absolute iff it was |
| `Paths.NormaliseCollapses` | src/mw-newlib.cpp:350-353 | no double slash is left iff no run of separators was longer than four |

## Left out

Statements that are weaker than they could be:

- MiSoundness.ExactlySound: the condition on the text (no quote with three backslashes before it) is sufficient only, because a variable may contain such characters; the condition on the tree is exact.
- MiRoundTrip.RobustValue: sufficient for every rest of input; the exact domain is that of MiExact.ExactValue.
- MiRoundTrip.TupleStopsResults: for tuples of robust fields; MiExact.TupleIsNoResults covers all tuples that are read back.
- Commands.RenderRoundTrip: a non-blank sequence may hold dashes and inner quotes, which the documented syntax excludes but options need; the end of the line is not part of it.
- MiLookup.FindInRecord: about records of named results; FindInAccepted is about all.
- MemoryReplies.ReplyIsMemory: for offsets in decimal; HexOffsetsExact covers offsets with 0x.
- WriteBuffer.Syscalls.Write: says what one call does at every length, but the runs consist of one-byte writes and closes; longer writes may overtake pending bytes, and nothing is claimed about that order.
- ReadRuns.EndOfFile: for hosts that fill every read as far as the file allows; conservation holds for every host. Descriptors are not negative, as -1 marks a free buffer.
- Bits.RenderNumber: sizes up to 8 bytes; beyond that the source shifts a 64-bit number by 64 or more.
- StopRuns.RunExit: for runs that start before any exit was set, as they do.
- StopRuns.RunAccount: likewise; the exit status itself is in RunExit.
- StopRuns.RunQuestions: likewise.
- StopLines.HitLineIsRead: for arguments with values; ParseFrame models the form without values too.

What the model does not contain:

- The parser's output vectors, pointers and thread-local name are values handed from rule to rule, not objects updated in place; aliasing of them is not modelled.
- The multi-line loop of the interpreter that collects replies, and the signals it raises: lines are taken one by one, and the stop line is given.
- The content of a stop is read into a value at once; its exceptions surface only where the loop reads it.
- The call through a null pointer after a hit of an unknown breakpoint number is an ending of the run, and so is GDB falling silent.
- Plug-ins are arbitrary, except that they return; exceptions from them, and their use of the frame, are not modelled. `parse_var` is an arbitrary function of the argument.
- What `_init_bps` tells each breakpoint about its location, and the remaining commands of the interpreter.
- `frame_impl::regs`, the reference branches of `frame_impl::print`, and the other `parse_result` specialisations, which copy fields.
- `_lseek`, `_open` beyond its path, stat and link calls, failed and partial host writes, and the translation of flags.
- Sums of offset and size above 64 bits, and running out of memory.
- The `to_string` printers, which do not invert the parser; the canonical printer stands in their place.
- `cli_command`, the Windows branch of path normalisation, logging, timers, coroutines, pipes and program options.
