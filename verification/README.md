# A verified model of minidbg

minidbg is a small debugger for Linux: it plants software breakpoints with `ptrace`, steps and continues a
traced process, reads DWARF debugging information with its own reader, and takes commands through a copy
of the linenoise line editor. This project models the parts of it that are interpreters, protocols or
in-place algorithms, and proves what they are for. `dafny verify dfyconfig.toml` checks everything.

Each part has a specification, written as functions over values, and the source's own objects and loops,
written as classes and methods that are proved to compute it. The theorems are about the specification.

- **Breakpoints and stepping** (`Breakpoints`, `Stepping`, `Transparency`, `Execution`, `Commands`, `Debugger`).
  The debuggee is an abstract deterministic machine: memory, pc, everything else, and a log of the instructions
  it has retired. The main result is that debugging is transparent over whole sessions, under guards a caller
  can check before each command; each command is described by where it stops and what it leaves; theorems say
  exactly when setting, removing and planting temporary batches are safe, when every planted trap survives the
  step off a breakpoint, when a command throws, and what goes wrong otherwise; and that the instructions retired
  are right in any case.
- **Sections and LEB128 numbers** (`Words`, `Leb128`, `Sections`). 64-bit words with explicit wrap-around, the
  cursor with its byte-order, LEB128, string, length and form-skipping loops.
- **Attribute values, abbreviations, entries** (`Values`, `Abbrevs`, `AbbrevTables`, `Dies`, `Walks`,
  `DieTrees`). Abbreviation tables and trees of debugging entries laid out as bytes; reading, finding attributes
  and walking siblings give the tree back, and on any other bytes walking does what the program's recursion and
  loops do, for ever where they do.
- **Ranges, units, functions** (`RangeLists`, `Units`, `FunctionLookup`, `FunctionBounds`, `Searches`,
  `Refusals`). Range lists against what they denote, .debug_info against the units laid out in it, the addresses
  an entry covers from its bytes, and the search for the function around a pc, which ends where the program's
  recursion ends. `Refusals` collects what the readers of sections, values and units do not accept.
- **Line-number programs** (`LineProgram`, `LineHeaders`, `FileLists`, `LineTable`, `LineSearch`, `LineAdvance`,
  `LineAssembler`, `LineRows`, `LineExpressible`, `LineRoundTrip`, `SharedFiles`, `BadDirectories`). The header
  and the file entries against their bytes, the interpreter, an assembler that writes every list of rows any
  program can emit, its round trip, the operation advance in closed form, the address search, the file list that
  all readers of a table share, and exactly when that is invisible.
- **Expressions** (`SmallVector`, `Expressions`, `WordMeaning`, `ExprCompiler`, `Operations`, `Descriptors`,
  `Evaluator`). The stack machine on a growable vector, what its operators mean, a compiler from expression
  trees that is correct for it, the operations that compiler does not use, and the location descriptors.
- **The line editor** (`LineEdit`, `LineKeys`, `LineEditor`). A byte buffer edited in place against a pair of
  texts left and right of the cursor, what each key does to them, and the history array.

Exceptions are a `Result` with the kind of exception. An operation to which C++ gives no meaning (division
by zero, a read outside a section, a read of storage just freed) is the error `Undefined`; a loop or
recursion that never ends is the error `NoEnd`. The standard meant throughout is DWARF Version 4.

Where the code and the standard disagree the model follows the code. Results on such behaviour:
`RelationalRightExactlyWhen`, `DivideRightExactlyWhen`, `ShiftArithRightExactlyWhen`, `WrappingAdvanceExactlyWhen`,
`ClosedFormExactlyWhen`, `OrderIsRightExactlyWhen`. Results on behaviour of the code that its user would not
expect: `FoundExactlyWhen`, `SharingIsInvisibleExactlyWhen`, `RoundTripExactlyWhen`, `CoveredTrapIsLost`,
`RemovedTrapComesBack`, `SetTwiceLeavesTrap`, `TrapsSurviveExactlyWhen`, `NextRunsPast`, `BackwardSiblingStays`,
`DupWithoutRoom`, `RecallRewritesHistory`.

## Model

| member | source | states |
|---|---|---|
| Breakpoints.EnablePatchesOneByte | include/breakpoint.hpp:44-65 | enabling a breakpoint changes exactly one byte of memory, the one at its address, to the trap; the other seven bytes of the word written are what stood there |
| Breakpoints.PokeOfPeek | include/breakpoint.hpp:46-55 | writing a saved word back restores the eight bytes that stood at the address when it was saved, whatever happened to memory in between |
| Breakpoints.Breakpoint.Enable | include/breakpoint.hpp:44-51 | saves the word at the address, patches it, and marks the breakpoint enabled |
| Breakpoints.Breakpoint.Disable | include/breakpoint.hpp:53-57 | writes the saved word back and marks the breakpoint disabled, keeping the saved word |
| DebuggerObject.Debugger.SetBreakpointAtAddress | src/minidbg.cpp:626-631 | the new state is the one the transparency results speak of: memory patched at the address, a fresh enabled entry in the map, nothing else |
| DebuggerObject.Debugger.RemoveBreakpoint | src/minidbg.cpp:252-257 | an unmapped address is an error; a mapped one loses its entry, and its word is written back if it was enabled |
| DebuggerObject.Debugger.StepOverBreakpoint | src/minidbg.cpp:426-436 | steps with the mapped, enabled breakpoint under the pc lifted, then enables it again, saving memory as it is then, unless the step throws |
| DebuggerObject.Debugger.HandleSigtrap | src/minidbg.cpp:457-478 | a breakpoint trap moves the pc back onto the trapped instruction, and throws when no line is found there; a single-step trap leaves it |
| DebuggerObject.Debugger.SingleStepInstructionWithBreakpointCheck | src/minidbg.cpp:325-333 | one instruction, stepping over a breakpoint if the pc stands on a mapped address |
| DebuggerObject.Debugger.ContinueExecution | src/minidbg.cpp:480-484 | steps off a breakpoint and then runs until a signal; the map is unchanged; it throws exactly when it stops on a trap without a line |
| DebuggerObject.Debugger.StepOut | src/minidbg.cpp:259-274 | plants a breakpoint at the return address only if none is mapped there, continues, and removes exactly what it planted, unless continuing throws |
| DebuggerObject.Debugger.StepOver | src/minidbg.cpp:287-318 | plants the function's lines other than the current one and then the return address, each only where nothing is mapped, continues, and, unless that throws, removes what it planted in the order it was planted |
| Stepping.ExecuteIsNative | src/minidbg.cpp:426-436 | off the traps, an instruction run in patched memory does what it does in the original code |
| Stepping.StepOverBpKeeps | src/minidbg.cpp:426-436 | lift, step, re-enable leaves memory and map exactly as they were and retires exactly the instruction under the breakpoint |
| Stepping.SingleStepKeeps | src/minidbg.cpp:320-323 | a step off the breakpoints keeps memory, map and agreement with the undebugged run |
| Stepping.ContinueKeeps | src/minidbg.cpp:480-484 | a continue stops at the first mapped address the undebugged run reaches (after the one it stands on) or outside the code, and nowhere else |
| Stepping.SetIsSafeExactlyWhen | src/minidbg.cpp:626-631 | setting a breakpoint keeps the whole invariant if and only if its address is not mapped yet and no mapped breakpoint's eight-byte word covers it |
| Stepping.RemoveIsSafeExactlyWhen | src/minidbg.cpp:252-257 | removing always takes away the right byte; the other saved words stay right if and only if none of them covers the address |
| Stepping.CoveredTrapIsLost | src/minidbg.cpp:426-436 | the failing case inside a window: stepping off a breakpoint erases a trap set later in the seven bytes above it, which stays mapped and enabled |
| Stepping.RemovedTrapComesBack | src/minidbg.cpp:426-436 | the failing case of removing inside a window: memory is right after the removal, but stepping off the covering breakpoint plants the removed trap again, unmapped |
| Stepping.SetTwiceLeavesTrap | src/minidbg.cpp:626-631 | the failing case of a repeated address: after set, set and remove, the trap byte stays in memory unmapped |
| Transparency.BatchRestoresExactlyWhen | src/minidbg.cpp:295-317 | planting distinct fresh addresses and removing them in insertion order restores memory and map if and only if no address was planted after one in the seven bytes above it, whether or not the traps themselves survived in between |
| Transparency.AscendingIsSafe | src/minidbg.cpp:297-304 | ascending line addresses meet that condition even when their words overlap |
| Transparency.ReturnAddressLast | src/minidbg.cpp:306-311 | a return address planted after ascending lines meets it if and only if no line lies in the seven bytes above it |
| Transparency.TemporaryKeeps | src/minidbg.cpp:259-318 | with a safe planting order step_over and step_out stop at the first trap left that the run reaches after its first instruction, or outside the code; if there is a line to show there, or no trap, they leave every mapped breakpoint and every byte as they were and agree with the undebugged run; otherwise, and only then, they throw and leave everything planted, mapped and enabled; a tracee still running has exactly the traps left in memory |
| Transparency.TrapsSurviveExactlyWhen | src/minidbg.cpp:426-436 | stepping off keeps every planted trap if and only if the pc stands on no mapped or planted address with another planted one in the seven bytes above it |
| Transparency.StepOverRunsPast | src/minidbg.cpp:287-318 | what happens otherwise: a planted line in the word of the breakpoint stepped off, to which control goes next, is retired and passed |
| Transparency.NextRunsPast | src/minidbg.cpp:287-318 | the shortest session of that kind, for a two-instruction program: break at 0, then next over the line at 1 |
| Transparency.SessionKeeps | src/minidbg.cpp:510-590 | every session of allowed set, remove, step, continue, finish and next commands keeps the invariant at every prompt; what it throws is the exception of a line look-up where there is no line, and nothing else |
| Transparency.DebuggingIsTransparent | src/minidbg.cpp:426-484 | whatever allowed commands are given: at every prompt memory is the code with traps at exactly the mapped addresses; always every mapped breakpoint is enabled, memory has no other traps, and the instructions retired, the pc and the data are those of the undebugged run after that many instructions; an exception is that of a line look-up where there is no line |
| Commands.FinishRunsInto | src/minidbg.cpp:259-274 | finish stops only at a mapped address, at the return address or outside the code, and retires no instruction at any of those but the one it stands on; stopped where there is a line, memory and map are as before; stopped where there is none, or still running after the given number of instructions, the trap at the return address is still there. Of the traps planted only one in the word saved at the pc is missing |
| Commands.NextRunsInto | src/minidbg.cpp:287-318 | the same for next, which stops besides at every line of the function but the current one |
| Commands.ContinueRunsInto | src/minidbg.cpp:480-484 | the same for continue, which plants nothing |
| Commands.StepRetiresOne | src/minidbg.cpp:325-333 | stepi retires the instruction at the pc, if there is one, leaves memory and map alone, and fails exactly when it gets to where there is no line |
| Commands.BreakAndRemove | src/minidbg.cpp:626-631 | break puts the trap at one address and maps it; remove puts the code's byte back and unmaps it, or throws when it is not mapped; pc, data and trace stay |
| Execution.ExecutionIsNative | src/minidbg.cpp:252-484 | over every session whose breakpoints, temporary ones included, are set on instruction starts, in any order, repeated or overlapping: the instructions retired, the pc and the data are those of the undebugged run after that many instructions, memory is the code but for traps at instruction starts, and only removing an unmapped address or a missing line throws |
| Execution.PatchedExecutes | src/minidbg.cpp:426-436 | off a trap, memory with traps at any instruction starts executes like the code |
| Leb128.EncodeUnsigned | include/dwarf/internal.hpp:199-212 | the shortest encoding is well formed and denotes the number (the encoder that uleb128 inverts) |
| Leb128.EncodeSigned | src/dwarf/cursor.cpp:9-25 | the same for signed numbers of any size |
| Leb128.PadUnsigned | include/dwarf/internal.hpp:199-212 | an encoding padded with zero groups to any longer length denotes the same number |
| Leb128.EncodingLength | include/dwarf/internal.hpp:199-212 | a number below 2^(7k) needs at most k bytes, so a 64-bit one at most ten |
| Sections.Cursor.Uleb128 | include/dwarf/internal.hpp:199-212 | the shifting loop computes the number the terminated bytes denote modulo 2^64 and stops just after them, at any length; without a terminator it is an underflow |
| Sections.Cursor.Sleb128 | src/dwarf/cursor.cpp:9-25 | the same for signed numbers: OR-ing in sign bits is the sign extension |
| Sections.UnsignedRoundTrip | include/dwarf/internal.hpp:199-212 | any encoding of a 64-bit number, padded or not, decodes to it and is consumed whole |
| Sections.SignedRoundTrip | src/dwarf/cursor.cpp:9-25 | the same for every signed 64-bit number, the most negative included |
| Sections.ScanHighIsStop | src/dwarf/cursor.cpp:160-166 | the skip loop over continuation bytes stops where the decoders stop |
| Sections.Cursor.Fixed | include/dwarf/internal.hpp:176-192 | a fixed-size read gives the number its bytes denote in the section's byte order and moves past them, or reports an underflow |
| Sections.FixedRoundTrip | include/dwarf/internal.hpp:176-192 | reading the fixed-size encoding of a number in either byte order gives it back |
| Sections.Cursor.Ensure | include/dwarf/internal.hpp:164-168 | fails exactly when the bytes are not there, or at the very end even for none |
| Sections.Cursor.Cstr | src/dwarf/cursor.cpp:86-97 | the bytes up to the first NUL, and the cursor after it; an unterminated string is an error |
| Sections.StringRoundTrip | src/dwarf/cursor.cpp:86-97 | a NUL-terminated string is read back |
| Sections.Cursor.Subsection | src/dwarf/cursor.cpp:27-45 | reads either format's initial length, cuts the unit out and moves to its end; reserved lengths are refused |
| Sections.Cursor.SkipForm | src/dwarf/cursor.cpp:99-180 | the cursor moves to the end of the attribute that the form says, indirect forms included |
| Refusals.TruncatedIsRefused | include/dwarf/internal.hpp:164-233 | numbers cut off by the end of the section are an underflow, strings a format error; an address size there is no reader for and an offset without a format are errors |
| Refusals.LargeNumbersWrap | include/dwarf/internal.hpp:199-212 | of a LEB128 number of any length the low 64 bits are read, and all its bytes are passed |
| Values.SkipAndDecodeAgree | src/dwarf/cursor.cpp:99-180 | for every form that can be skipped other than indirect and every encoding of a value in it, skipping moves past exactly that encoding, and every reader that accepts the form returns the encoded value |
| Values.FixedReads | src/dwarf/value.cpp:60-98 | address, constant (unsigned and sign-extended), reference, flag and offset readers of fixed-size forms return the number or its meaning |
| Values.LebAgrees | src/dwarf/value.cpp:60-98 | the same for the LEB128 forms |
| Values.TextAgrees | src/dwarf/value.cpp:207-221 | the same for inline strings |
| Values.BlockAgrees | src/dwarf/value.cpp:35-58 | the same for blocks and expressions with any length prefix; as_block fails exactly for an empty block at the very end of the unit |
| Refusals.OtherFormsAreRefused | src/dwarf/value.cpp:21-260 | every reader refuses every form that is not its own as a type mismatch |
| Refusals.OddForms | src/dwarf/cursor.cpp:99-180 | ref8 is read but cannot be skipped; indirect is skipped as the form its number names |
| Abbrevs.AbbrevEntry.Read | src/dwarf/abbrev.cpp:146-164 | one table entry with its resolved attribute types, up to the pair of zeros; false at the zero code |
| Abbrevs.UnitAbbrevs.ForceAbbrevs | src/dwarf/dwarf.cpp:191-214 | after loading, either representation answers every code with the last entry read with it; the dense one is chosen exactly by the wrapped comparison, and a vector too large is refused; loading again changes nothing, and a failed attempt fails again alike |
| Abbrevs.UnitAbbrevs.Densify | src/dwarf/dwarf.cpp:206-211 | moving the map into the vector loses and adds nothing |
| Abbrevs.UnitAbbrevs.GetAbbrev | src/dwarf/dwarf.cpp:168-189 | loads the table at the first call; every call answers with the last entry read with the code or a format error, or, each time anew, with the error that loading gives |
| Abbrevs.MapIsLastWith | src/dwarf/dwarf.cpp:200-204 | filling the map keeps for each code the last entry read |
| AbbrevTables.FormsAreNumbered | include/dwarf/data.hpp:223-252 | the form numbers are those of the standard |
| AbbrevTables.TypesAreClasses | src/dwarf/abbrev.cpp:13-133 | for every attribute and every form the type is the one the attribute's classes in the standard give; a pair without one is a format error |
| AbbrevTables.TableIsRead | src/dwarf/abbrev.cpp:146-164 | reading a table laid out as bytes (LEB128 code, tag, children byte, pairs of name and form number, a pair of zeros; a zero at the end) gives back every entry in order, with its code, tag, children flag, attributes and their types, however the numbers are padded |
| AbbrevTables.LaidTableAnswers | src/dwarf/dwarf.cpp:168-214 | looking a code up in such a table gives the last entry laid out with it; a code that none has is a format error, and codes that no vector can hold are refused |
| AbbrevTables.SmallCodesFit | src/dwarf/dwarf.cpp:206-207 | no table whose codes are below a tenth of 2^64 is refused for its size |
| Dies.Die.Read | src/dwarf/die.cpp:21-45 | code, abbreviation, the start of every attribute and the end of the entry; a zero code leaves a terminator |
| Dies.Die.HasAttribute | src/dwarf/die.cpp:47-55 | whether some attribute has the name, never for a terminator |
| Dies.Die.Get | src/dwarf/die.cpp:57-68 | the form, type and offset of the first attribute with the name, or out of range |
| Dies.DieIterator.Increment | src/dwarf/die.cpp:108-125 | leaf, sibling attribute wherever it points, or recursive walk: the entry reached is the one the specification's walk reaches, and what would never end is reported |
| Dies.NextMovesForward | src/dwarf/die.cpp:108-125 | when no abbreviation with children has a sibling attribute, ++ always comes to an end and moves to a larger offset, from anything that reads as an entry, whatever the bytes |
| Dies.MovesForwardExactlyWhen | src/dwarf/die.cpp:108-125 | on every unit, whatever its bytes: ++ always ends and moves forward if and only if the sibling attributes of what reads as an entry with children lead forward |
| Dies.BackwardSiblingStays | src/dwarf/die.cpp:108-125 | the failing case, seven bytes behind a unit header: ++ on a child of the root without a sibling attribute stays where it is, because its own child's leads back, and the loop over the root's children never ends |
| Walks.EndsExactlyWhen | src/dwarf/die.cpp:108-125 | on any bytes: the code's recursion and loops, given enough turns, end if and only if the walk does not report that they never do, and then with its result |
| DieTrees.ReadDieIsRoot | src/dwarf/die.cpp:21-45 | reading an encoded entry records the exact start of every attribute and the exact end of the encoding |
| DieTrees.AttributeIsEncoded | src/dwarf/die.cpp:47-68 | operator[] finds the first attribute with the name and the value readers return what was encoded there; has and operator[] fail together |
| DieTrees.NextSkipsSubtree | src/dwarf/die.cpp:108-125 | for every tree laid out in preorder with null-terminated children, ++ lands just after the whole subtree, with or without a right sibling attribute |
| DieTrees.ForestIsSkipped | src/dwarf/die.cpp:118-121 | the inner loop from a first child reaches exactly the null entry that ends the list |
| DieTrees.ChildrenAreKids | src/dwarf/die.cpp:95-125 | iterating over an entry visits exactly its children, in order |
| DieTrees.ShortcutIsRightExactlyWhen | src/dwarf/die.cpp:115-121 | the sibling shortcut reaches the offset the recursive walk reaches if and only if it points at the end of the subtree |
| FunctionLookup.BoundsCover | src/dwarf/attrs.cpp:251-259 | without a ranges attribute an entry covers exactly the interval between its bounds; IntervalIsCovered says what these are |
| FunctionLookup.CoversPc | src/dwarf/attrs.cpp:251-259 | building the range list and searching it decides whether the entry covers the address, with the same error when its attributes cannot be read |
| FunctionBounds.IntervalIsCovered | src/dwarf/attrs.cpp:128-259 | an entry laid out as bytes with low_pc lo and without ranges covers pc if and only if lo <= pc < hi, hi being the value of a high_pc in form addr, lo plus it modulo 2^64 in a constant form, and lo + 1 modulo 2^64 without one; a high_pc in any other form is a format error |
| FunctionBounds.NoStartIsRefused | src/dwarf/attrs.cpp:251-259 | without low_pc the range is out_of_range, with low_pc in another form a type mismatch |
| FunctionBounds.ListIsSearched | src/dwarf/value.cpp:145-155 | an entry with ranges covers what the list at the encoded offset denotes, over the low_pc encoded in the unit's root or 0 when that has none; without the section it is a format error |
| FunctionBounds.LaidListIsCovered | src/dwarf/value.cpp:145-155 | with the list laid out there as pairs of 8-byte addresses and a pair of zeros, pc is covered if and only if some pair, displaced by the base in force, holds it |
| FunctionBounds.LeafIsFoundExactlyWhen | src/minidbg.cpp:46-72 | an entry with an interval and no children is found if and only if its tag is subprogram or inlined_subroutine and the interval holds the address |
| FunctionLookup.FindPcInto | src/minidbg.cpp:46-72 | appends to the stack exactly what the search finds, following every step the iterator takes, and answers true exactly when that is something; a search that would never end is reported |
| Searches.SearchEndsExactlyWhen | src/minidbg.cpp:46-72 | on any bytes: the code's recursive search, given enough turns, ends if and only if the modelled search does not report that it never does, and then with the same functions |
| FunctionLookup.FindPcIsFirstMatch | src/minidbg.cpp:46-72 | on every tree: nothing is found exactly when no subprogram or inlined entry covers the address; otherwise the result is the first covering one in post-order followed by all its function ancestors, innermost first |
| FunctionLookup.FirstMatchIsInnermost | src/minidbg.cpp:50-55 | no function entry below the one found covers the address |
| FunctionLookup.FunctionAtIsFirst | src/minidbg.cpp:355-368 | the function reported is the innermost one of the first unit whose root and some function in it cover the address; otherwise out of range, or the error of the first unit with unreadable bounds |
| FunctionLookup.GetFunctionFromPc | src/minidbg.cpp:355-368 | the loop over the units computes that answer |
| RangeLists.ContainsExactlyWhen | src/dwarf/rangelist.cpp:43-88 | for every list, with addresses of up to 3 bytes or of 8 and more: found if and only if some raw pair, displaced by the base address in force there (the last selection before it or the unit's own), holds the address; an unreadable tail matters only when no earlier range did; with 4 to 7 bytes the search is undefined |
| RangeLists.RangeIterator.Increment | src/dwarf/rangelist.cpp:60-88 | the loop over base selections stops at the next range or at the end of the list |
| RangeLists.RangeList.ContainsAddress | src/dwarf/rangelist.cpp:43-49 | the search over the iterator, stopping at the first range that holds the address |
| RangeLists.RangeList.FromPairs | src/dwarf/rangelist.cpp:13-28 | the storage built is every pair in order and a final pair of zeros, with base address 0 |
| RangeLists.RoundTripExactlyWhen | src/dwarf/rangelist.cpp:13-28 | a list made from pairs yields exactly those pairs if and only if none is (0, 0) or starts with the all-ones address |
| RangeLists.PlainPairsContain | src/dwarf/rangelist.cpp:13-49 | such a list holds exactly the addresses some pair holds |
| RangeLists.SinglePairContains | src/dwarf/attrs.cpp:251-259 | a list of one pair, as die_pc_range makes it, holds exactly [low, high) for every pair, the two special ones included |
| Units.UnitsTile | src/dwarf/dwarf.cpp:54-61 | whatever the bytes, when the loop succeeds the units lie end to end from offset 0 and leave nothing of the section out |
| Units.OffsetPicksItsUnit | src/dwarf/value.cpp:179-191 | for every offset inside .debug_info the scan picks the one unit that contains it, and the byte at the relative offset in that unit is the byte at the section offset |
| Units.LayoutIsRead | src/dwarf/dwarf.cpp:54-61 | units of either format laid out one after the other are read back as they are: offsets, sizes, versions 2 to 4, abbreviation offsets, address sizes, where the root starts |
| Refusals.ReservedLengthIsRefused | src/dwarf/cursor.cpp:27-45 | the reserved initial lengths are a format error |
| Refusals.OtherVersionsAreRefused | src/dwarf/dwarf.cpp:216-235 | a unit laid out with a version other than 2 to 4 is a format error |
| Refusals.MissingSectionsAreRefused | src/dwarf/dwarf.cpp:25-61 | without .debug_info or .debug_abbrev there is a format error, unless reading the byte order fails before |
| Units.OrderIsRightExactlyWhen | src/dwarf/dwarf.cpp:36-48 | the byte order is recognised if and only if the version's low byte is not below its high byte (and for big-endian data above it) |
| Units.LoadReadsLayout | src/dwarf/dwarf.cpp:24-62 | loading a non-empty list of units written in either byte order finds the order and exactly the units |
| Units.ReadHeader | src/dwarf/dwarf.cpp:216-232 | the unit header read through cursors, with its error for each unacceptable field |
| Units.Dwarf.LoadFrom | src/dwarf/dwarf.cpp:24-62 | both sections required, byte order detected, all units read in order |
| Units.Dwarf.Locate | src/dwarf/value.cpp:179-191 | the last unit before the first that starts after the offset, and the offset less its start |
| LineTableObject.LineIterator.Step | src/dwarf/line.cpp:276-393 | one instruction leaves exactly the registers, the row, the file list and the cursor that section 6.2.5 of DWARF Version 4 as coded prescribes; true exactly when a row is added |
| LineTableObject.LineIterator.Increment | src/dwarf/line.cpp:246-274 | steps to the next row and its file; at the end nothing changes; a failure reports the error and the file list as left |
| LineTableObject.LineTable.ReadFileEntry | src/dwarf/line.cpp:180-208 | an entry that ends at or before the mark is passed over; otherwise the mark moves and the file is added, or its directory is refused |
| FileLists.LaidEntryIsTaken | src/dwarf/line.cpp:180-208 | reading the bytes of an entry that ends past the mark appends one file with its mtime and length, whose path is the name if that starts with a slash and otherwise its include directory followed by the name; a directory not listed is a format error, the mark having moved; an entry that ends before the mark changes nothing |
| FileLists.DefineFileStep | src/dwarf/line.cpp:356-392 | the same for the bytes of define_file, which is refused afterwards if its entry ran past the length stated |
| FileLists.EndSequenceStep | src/dwarf/line.cpp:356-392 | end_sequence emits the registers and resets them, unless its stated length is zero |
| FileLists.SetAddressStep | src/dwarf/line.cpp:356-392 | set_address sets the address and clears op_index, or is refused if it ran past its length |
| FileLists.SetDiscriminatorStep | src/dwarf/line.cpp:356-392 | set_discriminator keeps 32 bits, or is refused if it ran past its length |
| FileLists.OtherOpcodesAreRefused | src/dwarf/line.cpp:378-385 | vendor opcodes are not implemented, all others a format error |
| FileLists.CopyIncrements | src/dwarf/line.cpp:246-274 | a row comes with the file its number lists, and a number not listed is refused; the row at the end completes the list; a program that ends without a row is refused |
| LineHeaders.ReadHeaderNumbers | src/dwarf/line.cpp:73-85 | the numbers of the header in their order, with the two zero tests |
| LineHeaders.CheckStandardLengths | src/dwarf/line.cpp:91-104 | the loop over the operand counts; an opcode_base of 0 or above 13 has no meaning |
| LineHeaders.ReadDirectories | src/dwarf/line.cpp:106-120 | the loop over the include directories, up to an empty one |
| LineHeaders.ReadFileList | src/dwarf/line.cpp:122-131 | the loop over the header's file entries, up to an empty name |
| LineHeaders.LoadLineTable | src/dwarf/line.cpp:47-132 | the constructor: the section of the table, the header, the directories and files, where the program starts |
| LineHeaders.LaidHeaderIsRead | src/dwarf/line.cpp:47-132 | a header laid out as bytes, in either format and any version, gives back its numbers, its include directories (relative ones behind the unit's own, all ended by a slash), the unit's file and every listed file with its path; a zero maximum_operations or line_range, or a file whose directory is not listed, is a format error |
| LineTableObject.Lookup.FindAddress | src/dwarf/line.cpp:147-161 | the iterator returned stands at the first row whose successor's address is beyond the one asked for, among the pairs the loop looks at |
| LineTableObject.Lookup.GetFile | src/dwarf/line.cpp:163-178 | a listed file at once; otherwise the whole program is read once and the index looked up in the list as grown, unless it was complete already |
| LineAssembler.DecodeInvertsEncode | src/dwarf/line.cpp:276-393 | decoding inverts encoding for every special, standard and exact-length extended instruction under every accepted header that knows it |
| LineRows.AssembleEmits | src/dwarf/line.cpp:276-393 | executing the instructions assembled for one row emits that row and nothing else and leaves the registers as section 6.2.5 resets them |
| LineExpressible.ProgramExistsExactlyWhen | src/dwarf/line.cpp:276-393 | for every accepted header, address size and list of rows: some program of instructions the header knows emits exactly those rows if and only if each row can follow the one before (a condition on the header and the two rows, opcode_base 1 to 13), and then the assembler's program does |
| LineRoundTrip.LineRoundTrip | src/dwarf/line.cpp:246-393 | for every accepted header and every list of rows it can express at all, naming listed files: reading the assembled program from its start emits exactly those rows in order with their files, then stands at the end |
| LineExpressible.FullHeaderExpressesAll | src/dwarf/line.cpp:282-354 | with opcode_base 13 every list of rows the registers can hold is expressible, at any address size |
| LineAdvance.AdvanceIsClosed | src/dwarf/line.cpp:312-319 | one advance is the quotient and remainder of the unbounded sum while op_index plus operand stays below 2^64 |
| LineAdvance.MixedAdvancesClosedForm | src/dwarf/line.cpp:282-340 | any mix of special opcodes, advance_pc and const_add_pc, whatever their total, gives address start + min_inst * ((op + total) / max_ops) and op_index (op + total) % max_ops, each operand being too small to wrap or wrapping harmless under the header |
| LineAdvance.SplittingChangesNothing | src/dwarf/line.cpp:282-340 | two such programs of advances with the same total leave the same address and op_index |
| LineAdvance.WrappingAdvanceExactlyWhen | src/dwarf/line.cpp:312-319 | when the 64-bit sum wraps, the code still agrees with the closed form if and only if max_ops divides 2^64 and min_inst_length |
| LineAdvance.ClosedFormExactlyWhen | src/dwarf/line.cpp:282-340 | under a header the closed form holds of every program of advances from every place, all 64-bit operands included, if and only if max_ops divides 2^64 and min_inst_length |
| LineSearch.CoverIsUnique | src/dwarf/line.cpp:147-161 | in a table whose sequences are sorted and disjoint at most one row covers an address |
| LineSearch.CoveredExactlyWhen | src/dwarf/line.cpp:146-161 | in such a table some row brackets the address if and only if it is in the range of some sequence, from its first address up to its end_sequence row |
| LineSearch.FoundExactlyWhen | src/dwarf/line.cpp:147-161 | in such a table the covering row is found if and only if its successor is not the table's last row, which end() hides |
| LineSearch.FirstCover | src/dwarf/line.cpp:154-158 | the first pair of neighbouring rows that brackets the address, the first of them no end_sequence row; none exactly when there is no such pair |
| SharedFiles.SharingIsInvisible | src/dwarf/line.cpp:163-274 | on every table whose define_file entries, up to where a reader alone stops, name directories that exist, and however many readers interleave their steps: every reader sees exactly the rows, files included, that it would see alone, and ends or fails where and as it would alone; as long as nobody has failed the file list holds the entries the reader furthest on has passed, and once somebody has ended or failed it is the list a reader alone leaves |
| SharedFiles.ListIsInOrder | src/dwarf/line.cpp:180-208 | on every table and in every interleaving, failures included: the file list is the header's files and then the define_file entries up to the mark, each once and in program order, each with its mtime, its length and its path (the name if it is a full path, else the include directory it names and the name), without those whose directory does not exist; as long as nobody has failed these are the entries the reader furthest on has passed |
| BadDirectories.SharingIsInvisibleExactlyWhen | src/dwarf/line.cpp:163-274 | for every table: all readers of all interleavings see what they would see alone, failures included, if and only if a reader alone comes to no entry whose directory does not exist, or the program does not go on behind that entry: the entry overruns its stated length, is the last instruction, or what follows, run with directories ignored, fails with the same error before a row with a file |
| BadDirectories.OneBadEntryShows | src/dwarf/line.cpp:180-208 | the shortest table that is not shared invisibly, nine bytes: one entry with a directory that is not there, and a row |
| BadDirectories.TwoBadEntriesShow | src/dwarf/line.cpp:180-208 | with two such entries the second reader still fails like the first, and the third does not |
| SharedFiles.ListsAreNested | src/dwarf/line.cpp:192-207 | of two states of the list the one with the larger mark extends the other, so an index never changes meaning |
| SharedFiles.IncrementIsSame | src/dwarf/line.cpp:246-274 | one increment over a longer list comes to the same as alone: the same row, file and position, or the same failure when every directory up to there exists |
| SmallVectors.SmallVector.Reserve | include/dwarf/small_vector.hpp:94-116 | the contents stay; the capacity becomes the first doubling that is large enough; the elements are copied only then |
| SmallVectors.SmallVector.PushBack | include/dwarf/small_vector.hpp:174-186 | appends one element; all are moved exactly when the capacity was full |
| SmallVectors.SmallVector.PushRevAt | include/dwarf/small_vector.hpp:94-179 | pushing a reference to an element of the vector itself appends it, and has no meaning exactly when the vector is full and on the heap |
| SmallVectors.SmallVector.PopBack | include/dwarf/small_vector.hpp:188-192 | drops the last element |
| SmallVectors.SmallVector.SetRevAt | include/dwarf/small_vector.hpp:144-147 | assigning through revat(n) changes the nth element from the back only |
| SmallVectors.SmallVector.Assign | include/dwarf/small_vector.hpp:68-77 | the contents become those of the vector assigned, which may be the vector itself |
| SmallVectors.SmallVector.Move | include/dwarf/small_vector.hpp:40-59 | the new vector has the contents, the old one is empty and back on its inline storage |
| SmallVectors.CapacityDoubles | include/dwarf/small_vector.hpp:99-103 | the capacity stays the inline size times a power of two |
| SmallVectors.PushesAreLinear | include/dwarf/small_vector.hpp:174-179 | n pushes from empty copy fewer than 2n elements in all |
| SmallVectors.PushMany | include/dwarf/small_vector.hpp:174-179 | pushing a whole sequence from empty gives that sequence, that capacity and that many copies |
| Evaluator.Evaluate | src/dwarf/expr.cpp:25-451 | the loop over a cursor and a small_vector computes the result of the stack machine for every byte string: location kind, value or error, a dup, over or pick whose push frees the block it refers into included |
| Evaluator.DoStack | src/dwarf/expr.cpp:170-200 | dup, drop, over, swap and rot rearrange the top of the stack as specified, fail on too few elements, and dup and over have no meaning exactly when the stack fills its heap block |
| Evaluator.DoControl | src/dwarf/expr.cpp:375-387 | skip and bra move to the signed 16-bit distance from the next operation |
| ExprCompiler.CompiledCodeComputes | src/dwarf/expr.cpp:60-438 | for every expression tree, wherever its code lies and whatever the stack and its room: running it ends after a known number of operations with the tree's 64-bit value pushed and the stack beneath untouched, or without a meaning, exactly when a dup on the way has no room |
| ExprCompiler.EvaluatingCompiledCode | src/dwarf/expr.cpp:25-447 | evaluating a compiled tree, with any arguments, ends with the address that the tree denotes if every dup on the way has room and is undefined otherwise |
| ExprCompiler.ThereIsRoom | src/dwarf/expr.cpp:60-438 | there is room for every tree without dup, and for every tree that needs no more words than the stack has room for already |
| ExprCompiler.DupWithoutRoom | src/dwarf/expr.cpp:171-174 | the failing case: doubling 1 over fifteen arguments |
| Descriptors.RegisterIsNamed | src/dwarf/expr.cpp:400-403 | the one byte 0x50 + k gives register k, whatever the arguments |
| Descriptors.RegxIsNamed | src/dwarf/expr.cpp:404-407 | 0x90 and any LEB128 encoding of r gives register r |
| Descriptors.CompiledValue | src/dwarf/expr.cpp:416-420 | the code of an expression tree followed by 0x9f gives the tree's value as a literal, or has no meaning exactly when a dup has no room |
| Descriptors.NoValue | src/dwarf/expr.cpp:416-420 | stack_value on an empty stack fails |
| Descriptors.ImplicitStep | src/dwarf/expr.cpp:410-415 | 0x9e and a LEB128 length give the place and length of the block behind them, and evaluation goes on inside the block; a block not wholly there, or empty at the very end, is an underflow |
| Descriptors.ImplicitValue | src/dwarf/expr.cpp:410-415 | with a block of bytes that are small literals or nops, evaluating gives that place and length |
| Descriptors.ArgumentsAreInOrder | src/dwarf/expr.cpp:25-37 | the arguments lie on the stack with the first on top: pick n gives argument n, or has no meaning where the push frees the block |
| Descriptors.NothingToGive | src/dwarf/expr.cpp:50-55 | no bytes are an empty location; nothing left on the stack is an error |
| Operations.StackMoves | src/dwarf/expr.cpp:171-200 | on a stack ending with a, b, c: drop leaves a, b, over adds b, rot makes it c, a, b; over that frees its block has no meaning |
| Operations.PickStep | src/dwarf/expr.cpp:179-183 | pick n pushes the element with n others above it |
| Operations.PickTooFar | src/dwarf/expr.cpp:179-183 | one element too far it has no meaning, further it fails |
| Operations.TooFewFail | src/dwarf/expr.cpp:61-70 | an operation that takes more elements than there are fails |
| Operations.SpaceSteps | src/dwarf/expr.cpp:212-231 | xderef takes the address from the top and the space from below it, with the address size; form_tls_address replaces the top; nop does nothing |
| Operations.SizedSteps | src/dwarf/expr.cpp:205-224 | a size operand is used if it is at most the address size, and refused otherwise |
| Operations.DivStep | src/dwarf/expr.cpp:266-273 | div gives the quotient of the top by the second truncated towards zero: the one that leaves a remainder smaller than the divisor and of the dividend's sign; the overflowing case has no meaning |
| Operations.DivByZero | src/dwarf/expr.cpp:266-273 | with a zero second element div has no meaning |
| Operations.ModStep | src/dwarf/expr.cpp:277-279 | mod gives the unsigned remainder of the second by the top |
| Operations.ShraStep | src/dwarf/expr.cpp:325-342 | shra gives the signed quotient by 2^n truncated towards zero, for every n |
| Operations.JumpSteps | src/dwarf/expr.cpp:375-387 | skip, and bra unless it pops a zero, go the signed 16-bit distance from behind the operand, forwards or backwards, in either byte order; in front of the expression there is no meaning |
| Operations.RefusedOperations | src/dwarf/expr.cpp:388-434 | the operations the program does not implement, and the bytes that are none |
| WordMeaning.ArithmeticIsModular | src/dwarf/expr.cpp:248-298 | plus, minus, mul and neg are arithmetic on the signed readings of the operands, the second-from-top first, up to a multiple of 2^64; abs is the absolute value except for the most negative number |
| WordMeaning.LogicIsBitByBit | src/dwarf/expr.cpp:263-345 | and, or, xor and not work on each of the 64 bits alone; shl and shr move every bit by the distance, fill with zeros and drop what leaves the word, for distances of 64 and more too |
| Expressions.RelationalRightExactlyWhen | src/dwarf/expr.cpp:349-374 | each comparison operator gives the answer of section 2.5.1.5 if and only if: le always, ge for equal operands, eq unless the second-from-top is smaller, lt unless they are equal, ne when it is smaller, gt never |
| Expressions.DivideRightExactlyWhen | src/dwarf/expr.cpp:266-273 | whenever the quotient of section 2.5.1.4 is defined, div pushes it if and only if the operands have equal magnitude; that includes second element 0, where the code's own quotient is not defined |
| Expressions.ShiftArithRightExactlyWhen | src/dwarf/expr.cpp:325-342 | shra is the arithmetic shift if and only if the value is non-negative or loses no set bit |
| LineEditor.Editor.EditFeed | src/linenoise.c:927-1086 | every key, escape sequences included, does to text, cursor, history and input what the zipper specification says and returns its outcome; cursor, length, capacity and terminator stay in order |
| LineEditor.Editor.BlockingEdit | src/linenoise.c:1102-1118 | feeding keys until the line is done is the specified session |
| LineEditor.Editor.EditInsert | src/linenoise.c:724-749 | inserts left of the cursor while there is room, in the middle or at the end |
| LineEditor.Editor.EditBackspace | src/linenoise.c:821-829 | erases the byte left of the cursor |
| LineEditor.Editor.EditDelete | src/linenoise.c:811-818 | erases the byte right of the cursor |
| LineEditor.Editor.EditDeletePrevWord | src/linenoise.c:833-845 | removes the spaces and the word left of the cursor; the right side, moved down with its terminator, is unchanged |
| LineEditor.Editor.TransposeChars | src/linenoise.c:982-990 | exchanges the two bytes around the cursor in place |
| LineEditor.Editor.EditHistoryNext | src/linenoise.c:787-807 | saves the edited text in its entry, moves within bounds and copies the other entry in, cut to the buffer |
| LineEditor.History.Add | src/linenoise.c:1249-1276 | adds a copy of the line unless it repeats the last, dropping the oldest when full |
| LineEditor.History.SetMaxLen | src/linenoise.c:1282-1308 | keeps the latest lines that fit; lengths below one are refused |
| LineEdit.DeletesOneWord | src/linenoise.c:833-845 | what goes is one maximal word and the spaces after it, and nothing else |
| LineEdit.WordSplitIsUnique | src/linenoise.c:833-845 | there is only one such way to split the text, so that says exactly which bytes go |
| LineEdit.TransposeSwaps | src/linenoise.c:982-990 | the text is the old one with two neighbours exchanged; the cursor steps on except at the end |
| LineEdit.MovesKeepText | src/linenoise.c:752-781 | cursor movements leave the text alone, and left and right undo each other inside the line |
| LineEdit.TypingInserts | src/linenoise.c:724-749 | typing any string puts what fits of it left of the cursor |
| LineEdit.BackspaceUndoesInsertExactlyWhen | src/linenoise.c:724-829 | backspace undoes typing if and only if there was room for the byte or nothing to erase |
| LineEdit.SessionKeepsText | src/linenoise.c:927-1086 | over every session of keys other than NUL the text fits the buffer and has no NUL, and the line returned is the whole text |
| LineKeys.MovingKeys | src/linenoise.c:991-1076 | the bytes 1, 5, 2 and 6 move the cursor to the start, to the end, one back and one on, and change nothing else |
| LineKeys.ErasingKeys | src/linenoise.c:967-1070 | 8 and 127 take the byte before the cursor, 4 the one behind it, 11 all behind it, 21 everything; 4 on an empty line is end of file |
| LineKeys.RearrangingKeys | src/linenoise.c:982-1083 | 20 exchanges the bytes around the cursor and steps on but for the end; 23 takes the word before the cursor and the spaces behind that word |
| LineKeys.TypingKeys | src/linenoise.c:1058-1080 | any other byte but ESC goes into the text at the cursor while there is room; 12 leaves it alone |
| LineKeys.EndingKeys | src/linenoise.c:951-966 | 13 returns the text and drops the session's history entry; 3 ends without a line; neither changes the text |
| LineKeys.RecallingKeys | src/linenoise.c:787-807 | 16 and 14 save the text in its history entry and show the next older or newer one, cut to fit, with the cursor at its end; past the oldest and the newest the text stays |
| LineKeys.EscapeKeys | src/linenoise.c:1003-1057 | arrows, Home and End, in both their forms, do exactly what the control keys do; other sequences are swallowed whole |
| LineKeys.LongEscapeKeys | src/linenoise.c:1011-1023 | ESC [ 3 ~ takes the byte behind the cursor; other sequences with a digit are swallowed with their fourth byte |
| LineEdit.UpDownRestoresExactlyWhen | src/linenoise.c:787-807 | Up then Down, away from the oldest entry, restores the text with the cursor at its end if and only if it is shorter than the capacity and has no NUL |
| LineEdit.HistoryIsLastLines | src/linenoise.c:1249-1276 | with a fixed maximum M the history is the last M of the lines added, immediate repetitions dropped |
| LineEdit.HistoryIsSuffix | src/linenoise.c:1249-1308 | however adds and changes of the maximum are mixed, the history is a tail of those lines, within the maximum, not empty once a line was added |
| LineEdit.SetMaxKeepsLatest | src/linenoise.c:1282-1308 | a new maximum keeps the latest lines, as many as it allows; one below 1 changes nothing |
| LineEdit.SessionSlotComesAndGoes | src/linenoise.c:899-1086 | every session whose recall keys are pressed on untouched lines only, and that ends with Enter or end of file, leaves the history as it was, except that a full one loses its oldest line and that an empty last line is taken for the session's own and dropped; interrupted, it leaves its own line behind, empty if no line was recalled |
| LineEdit.RecallKeepsLinesExactlyWhen | src/linenoise.c:787-807 | a recall key leaves the earlier lines alone if and only if there is nothing to recall, the line is the session's own, or the line recalled is unchanged |
| LineEdit.RecallRewritesHistory | src/linenoise.c:787-807 | the failing case: Ctrl-P, x, Ctrl-P, Enter on the history of the one line a leaves the one line ax, as the text is saved before the bounds are checked |

## Left out

Breakpoints and stepping:

- `ptrace`, `waitpid`, `/proc` and `fork` are replaced by the abstract machine; signals other than SIGTRAP and SIGSEGV, process exit, register and memory commands, and printing are not modelled.
- The debuggee is assumed not to write or read its own code and to contain no native trap (`WellFormed`); its instructions start only at the given starts.
- The four-byte trap of aarch64 is not modelled, only the one-byte trap of x86-64.
- step_in repeats the checked single step until the line changes; only the single step is modelled.
- DebuggerObject.Debugger.HandleSigtrap: the look-up of the source line is the parameter `entry` of the machine; every failure of it is the same error, and printing is left out.
- DebuggerObject.Debugger.ContinueExecution: takes a bound on the instructions retired before a signal, because the debuggee may run for ever; the result says whether it stopped.
- DebuggerObject.Debugger.StepOut: runs under the same bound.
- DebuggerObject.Debugger.StepOver: runs under the same bound, and the line rows it walks and the current row are the parameters `lines` and `start`; finding them is the line-table part.
- Transparency.DebuggingIsTransparent: a tracee still running after next or finish may lack planted traps, as `TrapsSurviveExactlyWhen` says; at every prompt memory is exact.

Sections, values and entries:

- LEB128 groups shifted by 64 bits or more are undefined in C++; the model drops their bits, as the usual shift by zero-extension would.
- A position past 2^64 does not wrap in the model; a unit or block longer than its section is clipped to the section, where the program would read on outside it.
- RangeLists.RangeList.FromSection: a slice of a section keeps the whole section's length, so an unterminated list reads on behind the section; the model reports an underflow there. Address sizes 4 to 7 shift a 32-bit 1 too far and are `Undefined`.
- Forms ref8 (which cannot be skipped) and indirect (whose readers refuse it) are outside `SkipAndDecodeAgree`, see `OddForms`; type units by signature, loclists, typed attribute getters and `die::resolve` are not modelled.
- Dies.DieIterator.Increment: sibling references through ref_addr or ref_sig8 are not followed; a recursion or loop that never ends is reported as an error.
- Sections.Cursor.Subsection: clips a unit longer than the section to it, where the program would read on behind it.
- Abbrevs.UnitAbbrevs.ForceAbbrevs: ten times the highest code wraps at 2^64 as in the code; the exception of a vector that cannot be so large is `OutOfRange`.
- A unit in `Dies` comes with its abbreviation table as a list; `AbbrevTables` says which list its bytes are.
- Reading a section that is missing is modelled for .debug_info, .debug_abbrev and .debug_ranges only.
- FunctionLookup.FindPcInto: a recursion or loop that never ends is reported as an error, and so is a sibling through ref_addr or ref_sig8.
- FunctionLookup.FindPcIsFirstMatch: is stated for units whose entries are a laid-out tree; on other bytes `SearchEndsExactlyWhen` says that the search does what the program does.

Line tables:

- LineHeaders.LaidHeaderIsRead: is stated for an opcode_base from 1 to 13; one of 0, or above 13, makes the program read or write outside its tables, which the model reports as `Undefined`, and the interpreter does not accept such headers.
- Finding a unit's line table through its root's attributes is not modelled.
- Extended opcodes with trailing bytes: the program computes the skip but does not make it; the model follows the program, and the assembler writes exact lengths.
- LineTableObject.Lookup.FindAddress: requires the line-number program to start inside the section, without which the loop never ends; iterators are not used again after an exception.
- LineTableObject.Lookup.GetFile: the same.
- LineRoundTrip.LineRoundTrip: the rows name files already in the list; programs that define files are read, and shared, but not assembled.
- The pointer from a row to its file, which the growing vector can leave dangling, is the file itself in the model.
- LineAdvance.MixedAdvancesClosedForm: excludes single operands whose sum with op_index may wrap under a header where wrapping does harm; `ClosedFormExactlyWhen` and `WrappingAdvanceExactlyWhen` say that these fail.
- SharedFiles.SharingIsInvisible: assumes that a reader alone comes to no entry with a bad directory; `SharingIsInvisibleExactlyWhen` is without that. Iterators are not used again after an exception.

Expressions:

- Evaluator.Evaluate: takes a bound on the operations executed, because jumps can go backwards for ever.
- fbreg and location lists mix offsets within the unit and within the section and are not modelled; the context's callbacks do not throw.
- mod and div by zero, the most negative number divided by -1, pick one element too far and jumps before the start are modelled as coded or as `Undefined`; implicit_value does not skip its block.
- Descriptors.ImplicitValue: is stated for blocks that do no harm, since the program executes them; `ImplicitStep` holds for every block.
- WordMeaning.ArithmeticIsModular: neg and abs of the most negative number overflow a signed type, to which C++ gives no meaning; the model gives them the value that wraps around.
- Expressions.ShiftArithRightExactlyWhen: the same for the negation that shra begins with.
- The compiler covers the comparison le only, and not div, mod, shra and pick; `Operations` says what one step of these does.
- Element destructors and allocation failures are not modelled. A reference into the inline storage stays readable when the vector leaves it for the heap, as it does for the machine words the program stores.

Line editor:

- Completion, hints, multi-line display, masking, the terminal, input that is not a terminal, saving and loading the history; a failing write; an end of file inside an escape sequence.
- LineEdit.SessionSlotComesAndGoes: is about sessions that recall lines without editing and leaving them; `RecallKeepsLinesExactlyWhen` and `RecallRewritesHistory` say what a recall key does otherwise.
- LineEditor.Editor.constructor: requires a buffer of at least two bytes, as recalling history into a one-byte buffer writes before it.
- Changes of the history's maximum during an edit, which can leave the entry being edited out of bounds.

Elsewhere:

- ELF loading, symbol tables, `die_str_map`, `to_string` tables, register names, and the stack-offset heuristic of `read_variables`.
