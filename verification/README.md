# FREDPP in Dafny

FREDPP is a line editor with a small command language. This project models its core and
proves what the editor promises: what patterns match, what expansion means, how command
lines are read, what commands do to buffers and files, and how procedures run.

The model follows the program's components, one module each:

- `Patterns`, `PatternMatcher`, `PatternGrammar`, `PatternParser`, `PatternRoundTrip`,
  `PatternSpelling`, `PatternMeaning`, `PatternMetadata`, `LiteralPatterns`: pattern trees, the
  declarative match relation, the matcher, the parser and its grammar, and what typed patterns
  match.
- `Substitution`, `LineCommands`, `GlobalLaws`, `SearchLaws`: what `S`, `G` and the other commands
  on lines do to text.
- `FlowSemantics`, `FlowEngine`, `CommandExpansion`, `ExpansionLaws`: the meaning of `\B`, `\S`,
  `\L`, `\C` and `\O`, the stack machine, and the expander for command input.
- `Tokens`, `Lexer`, `TokenStream`, `SourceText`: located characters, tokens, the lazy token
  cache, and the operands rebuilt from tokens.
- `Numbers`, `AddressParser`, `AddressText`, `CommandGrammar`, `CommandParser`: addresses and
  commands, and their grammar.
- `CommandTyping`, `MalformedCommands`, `MarkedCommands`, `LiteralOperands`, `PlainOperands`,
  `Spans`, `TypedCommands`: the lines that a user can type, what they mean, and what they do.
- `Utf8`, `TextFiles`, `FileCommands`: validation, line ends, `R` and `W`.
- `Addresses`, `AddressLaws`, `Buffers`, `Captures`, `Executor`, `Editor`: buffers and commands
  that change them.
- `Semantics`, `CommandLaws`, `BufferLaws`, `Sessions`: what each command means for the whole
  state, and what every session keeps.
- `Procedures`, `ProcedureLaws`, `ProcedureMachine`, `MachineLaws`, `ProcedureRunner`,
  `ProcedureRuns`, `ProcedureTermination`, `Scripts`: procedure lines, the machine that runs them,
  the runner, and why only backward jumps can keep a procedure going.
- `GroundLaws`: letters, digits, bytes and tokens, told from their text.

The modules whose names end in `Laws`, and those about typing, spelling and meaning, say what the
others compute in terms of the text that a user types and the lines that a buffer holds.

Code that changes state is modelled by classes and methods with the program's loops; each is
proved against a function or a relation that says what it computes, and the laws of these are
lemmas. The editor's methods refine `Semantics.Executed`, a function on the whole state, and the
runner's methods return a ghost trace of `ProcedureMachine`, whose steps use that function; so the
laws of sessions, of runs and of termination are about what these methods do. Where the program
throws, a method returns `Fail`. A byte is a character with a code below 256, a file is a string of
bytes, and the files of the host are a map from names to bytes.

Four results say that something a reader may expect does not hold, and when it does; each comes with
a concrete input:

- A file read with `R` and written with `W` comes back unchanged exactly if it has no byte
  order mark and its line feeds all, or none, follow a carriage return
  (`TextFiles.ReadThenWrite`). `TextFiles.MixedLineEndsAreRewritten` has a file that does not.
- A protected pattern body that ends in an odd number of backslashes cannot be used as a `G`
  or `S` operand, because the parser counts protected backslashes too
  (`LiteralOperands.ProtectedOperandParses`, `TypedCommands.TypedGlobalParses`).
  `TypedCommands.ProtectedBackslashFails` has such a line.
- A pattern whose delimiter is `|`, or `*` or `+` behind a protected byte, is not read as its
  text (`LiteralPatterns.ProtectedBodyParses`). `LiteralPatterns.BarsAroundLiteral` has one.
- A script cannot be loaded while an empty, unmodified buffer without a file, other than
  buffer 0, is current: selecting the script's buffer drops it, and there is nothing to return
  to (`Scripts.LoadsExactlyIf`). `Scripts.TransientBufferLoadsNothing` has such a state. The two
  callers in the program (src/cli/main.cpp:495 and :561) have buffer `u` or `0` current, so the
  state arises only through the public method of the class.

In two places the code differs from its documentation, and the model follows the code: `.`
matches a line feed (docs/specs/SPEC-007-PATTERNS.md:30 excludes it), and `R` without an address
only needs an empty buffer (docs/specs/SPEC-026-READ-WRITE.md:13 also asks for one that has no
file and no changes).

## Model

| member | source | states |
|---|---|---|
| Patterns.MatchWithinText | src/runtime/PatternMatcher.cpp:76-186 | every match of the declarative relation lies between its start and the end of the text |
| Patterns.IterationExtends | src/runtime/PatternMatcher.cpp:34-74 | iterations compose: one more match behind `n` iterations gives `n + 1` |
| PatternMatcher.AppendUnique | src/runtime/PatternMatcher.cpp:17-22 | adding a position keeps the list free of duplicates and adds just that position |
| PatternMatcher.MatchFrom | src/runtime/PatternMatcher.cpp:76-186 | returns, each once, exactly the end positions that the declarative relation `Matches` allows, for every tree, text and start; terminates |
| PatternMatcher.MatchSequence | src/runtime/PatternMatcher.cpp:108-127 | the set-of-positions loop over sequence elements computes exactly relational composition |
| PatternMatcher.MatchAlternation | src/runtime/PatternMatcher.cpp:128-139 | the ends of an alternation are the union of the ends of its branches, without duplicates |
| PatternMatcher.MatchRepetition | src/runtime/PatternMatcher.cpp:34-74 | the frontier loop reaches exactly the positions reachable by any number of iterations, for nullable operands too |
| PatternMatcher.ExpandFrontier | src/runtime/PatternMatcher.cpp:51-69 | one round keeps the exploration invariant; every new result is also in the next frontier |
| PatternMatcher.Find | src/runtime/PatternMatcher.cpp:188-210 | the least start at or behind the offset with a match, with its greatest end; none exactly when no start matches |
| PatternMatcher.FoundIsUnique | src/runtime/PatternMatcher.cpp:188-210 | leftmost-longest determines the result: any two results that satisfy it are equal |
| PatternMatcher.Search | src/runtime/PatternMatcher.cpp:212-215 | true exactly if the pattern matches somewhere |
| PatternParser.PatternParser.Parse | src/parser/PatternParser.cpp:119-132 | accepts exactly what the grammar function derives, with the same tree |
| PatternParser.PatternParser.ParseAlternation | src/parser/PatternParser.cpp:135-148 | loop over `|`: agrees with the grammar and stops where it stops; an empty later branch fails |
| PatternParser.PatternParser.ParseSequence | src/parser/PatternParser.cpp:151-160 | agrees with the grammar: none, one or several elements |
| PatternParser.PatternParser.ParseRepetition | src/parser/PatternParser.cpp:165-177 | agrees with the grammar: at most one repetition operator |
| PatternParser.PatternParser.ParseAtom | src/parser/PatternParser.cpp:185-204 | agrees with the grammar: protected, escaped and other ordinary bytes are literals, and special ones what they look like (`PatternSpelling.ParsedIsSpelled` and `PatternMeaning.ChoicesParse` say so without the grammar) |
| PatternParser.PatternParser.ParseCharacterClass | src/parser/PatternParser.cpp:220-251 | agrees with the grammar: negation, ranges, escapes, no empty class |
| PatternRoundTrip.ParsedIsCanonical | src/parser/PatternParser.cpp:119-251 | every tree the parser returns is canonical (no one-element sequence, no repetition of a repetition, only the first alternative may be empty, no empty class) |
| PatternRoundTrip.PrintedParsesBack | src/parser/PatternParser.cpp:119-251 | printing a canonical tree between plain delimiters parses back to the same tree, whichever further bytes are escaped, and whether the bytes carry no metadata, are ordinary, or are forced to be special |
| PatternRoundTrip.PlainTextParses | src/parser/PatternParser.cpp:185-204 | between plain delimiters, text without the delimiter and without structural bytes is the pattern of just that text, with or without metadata |
| PatternMetadata.AlikeParse | src/parser/PatternParser.cpp:185-251 | the parser looks at nothing in the metadata but whether a byte is marked Literal |
| PatternSpelling.ParsedIsSpelled | src/parser/PatternParser.cpp:119-251 | whatever is accepted is, from delimiter to delimiter, a spelling of the tree returned: a relation on source positions that says what every kind of tree looks like |
| PatternMeaning.ChoicesParse | src/parser/PatternParser.cpp:119-251 | choices of bytes, dots, ranges, their repetitions, groups and anchors, as they are typed, parse to their tree |
| PatternMeaning.ChoicesMatch | src/runtime/PatternMatcher.cpp:76-186 | such a typed pattern matches exactly the pieces of a line in which one of its choices stands, told from the bytes of the line |
| PatternMeaning.ChoicesSelect | src/runtime/CommandExecutor.cpp:727-731 | `G` selects a line with it exactly if one of its choices stands somewhere in the line, and `G~` exactly if none does |
| PatternMeaning.RangesAreSigned | src/runtime/PatternMatcher.cpp:148-170 | a range of a character class compares bytes as signed |
| PatternRoundTrip.CanonicalIffParsed | src/parser/PatternParser.cpp:119-251 | a tree is canonical exactly if some source parses to it |
| LiteralPatterns.ProtectedBodyParses | src/parser/PatternParser.cpp:185-204 | a body of protected bytes parses to its own text exactly if the delimiter is not taken for an operator behind it |
| LiteralPatterns.LongerBodyFails | src/parser/PatternParser.cpp:119-132 | with any delimiter, anything behind the closing one makes the pattern invalid |
| LiteralPatterns.BarsAcceptNothing | src/parser/PatternParser.cpp:119-148 | between bars no pattern at all is accepted, because a bar is read as the bar between alternatives |
| LiteralPatterns.BarsAroundLiteral | src/parser/PatternParser.cpp:119-148 | such a source: a protected `a` between bars |
| LiteralPatterns.LiteralPatternMatches | src/runtime/PatternMatcher.cpp:76-127 | a literal pattern matches exactly where its text stands |
| LiteralPatterns.LiteralPatternFound | src/runtime/PatternMatcher.cpp:188-210 | searching for a literal pattern finds the leftmost occurrence of its text, or none if there is none |
| Substitution.ExpandSubstitutionReplacement | src/runtime/CommandExecutor.cpp:513-527 | computes the recursive meaning of a replacement: `&` is the match, a backslash protects |
| Substitution.EscapedIsVerbatim | src/runtime/CommandExecutor.cpp:513-527 | a replacement with every byte escaped inserts itself, whatever was matched |
| Substitution.CutsAreLongest | src/runtime/CommandExecutor.cpp:529-576 | every replaced match is the leftmost one from where the search resumed behind the one before it, and the longest at its start |
| Substitution.CutsIncrease | src/runtime/CommandExecutor.cpp:529-576 | replaced matches do not overlap and their starts strictly increase, also for empty matches |
| Substitution.CutsCover | src/runtime/CommandExecutor.cpp:529-576 | no match is left over: each one starts at, or inside, a replaced one |
| Substitution.SubstituteAll | src/runtime/CommandExecutor.cpp:529-576 | the search loop weaves kept pieces and replacements as the list of cuts says; terminates for empty matches |
| Substitution.SubstitutedNone | src/runtime/CommandExecutor.cpp:529-576 | nothing is substituted exactly if the pattern matches nowhere |
| Substitution.SubstituteByMatch | src/runtime/CommandExecutor.cpp:529-576 | replacing by `&` gives the text back, for every pattern that matches |
| Substitution.SubstituteEscaped | src/runtime/CommandExecutor.cpp:529-576 | an escaped replacement puts exactly its text in place of each cut and keeps all other bytes |
| Substitution.SubstituteVerbatim | src/runtime/CommandExecutor.cpp:529-576 | so does every replacement that stands for one text whatever was matched, plain text without backslash and ampersand included |
| Substitution.PlainIsVerbatim | src/runtime/CommandExecutor.cpp:513-527 | plain text in a replacement stands for itself, in front of anything |
| Substitution.SpecialReplacements | src/runtime/CommandExecutor.cpp:513-527 | an ampersand inserts the match, a backslash any byte behind it, and one at the end itself |
| Substitution.EndingCutIsLast | src/runtime/CommandExecutor.cpp:529-576 | a match that is not empty and ends the text is the last one replaced |
| Substitution.SubstituteLiteral | src/runtime/CommandExecutor.cpp:529-576 | a literal pattern with a replacement that stands for one text is plain replace-all, defined independently |
| FlowEngine.InputSource.Next | src/flow/BufferInputSource.cpp:16-40 | reads the buffer text byte by byte: lines, and line ends if asked for, and nothing after the end |
| FlowEngine.InputStack.Push | src/flow/InputStack.cpp:15-26 | refuses a source beyond the maximum depth and changes nothing then |
| FlowEngine.InputStack.Next | src/flow/InputStack.cpp:28-39 | the next byte of the topmost source that has one; exhausted sources above it are gone |
| FlowEngine.FlowEngine.ParseBufferName | src/flow/FlowEngine.cpp:402-501 | reads the same name, and leaves the same rest, as the recursive definition; never crosses a source |
| FlowEngine.FlowEngine.ExpandCurrentInput | src/flow/FlowEngine.cpp:289-396 | the stack machine computes the recursive substitution semantics of its stack, terminates for all buffers, and leaves the stack empty on success |
| FlowEngine.FlowEngine.ExpandInput | src/flow/FlowEngine.cpp:262-269 | succeeds exactly if the recursive definition does within the depth bound, with its value |
| FlowEngine.FlowEngine.ExpandBuffer | src/flow/FlowEngine.cpp:251-260 | the same for a buffer; an unknown buffer fails |
| FlowSemantics.ProtectedFlow | src/flow/FlowEngine.cpp:320-336 | prefixing every byte with `\C` makes any text expand to itself |
| FlowSemantics.FlowDepthMonotone | src/flow/FlowEngine.cpp:289-396 | a larger depth bound keeps every successful expansion as it was |
| FlowSemantics.CyclicInclusionFails | src/flow/FlowEngine.cpp:289-396 | buffers whose expansion comes to an active inclusion of one of them, whatever stands before it, never expand, at any depth bound |
| FlowSemantics.PlainInclusion | src/flow/FlowEngine.cpp:355-363 | text without backslashes and `\B(name)` come to such an inclusion |
| CommandExpansion.ExpandSegment | src/flow/FlowEngine.cpp:105-242 | the position-driven loop computes the recursive definition of command expansion, with metadata and level of each byte (what that is for each directive: `ExpansionLaws.MarkedSegment` and `ExpansionLaws.BufferSegment`) |
| ExpansionLaws.MarkedSegment | src/flow/FlowEngine.cpp:122-160 | in front of anything, `\C` before each byte of a text gives the same bytes marked Literal, and `\O` the same bytes marked ForcedSpecial, at the level of the line |
| ExpansionLaws.BufferSegment | src/flow/FlowEngine.cpp:161-220 | in command input, `\S(name)` and `\L(name)` with a plain name of 1 to 64 bytes give the text of the buffer, without or with line ends, Literal and one level deeper, and fail for an unknown buffer or at the maximum depth |
| ExpansionLaws.UndirectedSegment | src/flow/FlowEngine.cpp:105-242 | text whose backslashes make no directive is read as it is, its backslashes included |
| ExpansionLaws.PlainFlow | src/flow/FlowEngine.cpp:289-396 | in full flow, text without backslashes stands for itself in front of anything |
| ExpansionLaws.KeptFlow | src/flow/FlowEngine.cpp:320-336 | and so do bytes behind `\C` or `\O` |
| ExpansionLaws.BufferFlow | src/flow/FlowEngine.cpp:337-396 | `\B(name)` with a plain name of 1 to 64 bytes is the expansion of the buffer one level deeper, `\S(name)` its text without line ends and `\L(name)` with them, if one more source may be active; otherwise it fails |
| ExpansionLaws.LongNameFlow | src/flow/FlowEngine.cpp:402-501 | a name of more than 64 bytes fails |
| ExpansionLaws.ProtectedName | src/flow/FlowEngine.cpp:402-501 | in a name, `\C` protects any byte, even the closing parenthesis |
| ExpansionLaws.NameInName | src/flow/FlowEngine.cpp:402-501 | in a name, `\S(other)` stands for the text of another buffer, and other escapes for themselves |
| ExpansionLaws.BrokenNames | src/flow/FlowEngine.cpp:402-501 | a directive without a name in parentheses, with an empty one, or with one that nothing closes fails |
| CommandExpansion.AppendLiteralBufferText | src/flow/FlowEngine.cpp:80-95 | buffer text goes in marked Literal, with line ends exactly for `\L` |
| CommandExpansion.ExpandCommandInputCharacters | src/flow/FlowEngine.cpp:276-287 | command input expands as the recursive definition says, or fails with it |
| CommandExpansion.ProtectedSegment | src/flow/FlowEngine.cpp:122-142 | protected text expands to itself, every byte Literal at the current level |
| CommandExpansion.ExpandersAgree | src/flow/FlowEngine.cpp:105-396 | the two expanders give the same bytes whenever both succeed, on text without escaped backslash, `\B`, and with names both read alike |
| Utf8.IsValidUtf8 | src/runtime/CommandExecutor.cpp:98-143 | accepts exactly the concatenations of encodings of Unicode scalar values (sections 3 and 4 of RFC 3629) |
| Utf8.ValidIffEncoded | src/runtime/CommandExecutor.cpp:98-143 | decoding succeeds exactly on encoded sequences of scalar values |
| Utf8.EncodingIsUnique | src/runtime/CommandExecutor.cpp:98-143 | the scalar values of an accepted text are unique |
| Utf8.ValidCut | src/runtime/CommandExecutor.cpp:98-143 | cutting valid text at an ASCII byte leaves both parts valid |
| TextFiles.DecodeFile | src/runtime/CommandExecutor.cpp:152-196 | decodes bytes to lines, encoding, line end and final newline, or refuses NUL and invalid text |
| TextFiles.ReadLines | src/runtime/CommandExecutor.cpp:181-194 | the splitting loop gives the lines of the recursive definition, a CR before LF belonging to the line end |
| TextFiles.WriteLines | src/runtime/CommandExecutor.cpp:359-372 | the bytes of the range: lines with the buffer's line ends, the last one ended except in a full write without final newline |
| TextFiles.ReadThenWrite | src/runtime/CommandExecutor.cpp:152-196 | reading and writing back gives the same bytes exactly if there is no byte order mark and the line feeds all, or none, follow a CR |
| TextFiles.MixedLineEndsAreRewritten | src/runtime/CommandExecutor.cpp:152-196 | an accepted file with both kinds of line ends that is not reproduced |
| TextFiles.BareLineFeedsCounted | src/runtime/CommandExecutor.cpp:177-178 | the count of bare line feeds is zero exactly if every line feed follows a CR |
| TextFiles.WriteThenRead | src/runtime/CommandExecutor.cpp:359-372 | lines that can be written are read back from the written bytes as they were |
| TextFiles.ReadLinesAreRepresentable | src/runtime/CommandExecutor.cpp:276-296 | every line of an accepted file passes the write checks of the file's own encoding |
| Buffers.Buffer.Append | src/core/Buffer.cpp:42-46 | one line at the end, cursor on it, modified |
| Buffers.Buffer.InsertAfter | src/core/Buffer.cpp:62-82 | list insertion and its cursor; inserting nothing only moves the cursor; out of range fails without effect |
| Buffers.Buffer.Replace | src/core/Buffer.cpp:84-93 | one line replaced; modified exactly if something changed |
| Buffers.Buffer.Erase | src/core/Buffer.cpp:95-119 | list removal of an inclusive range, and where the cursor goes |
| Buffers.Buffer.LoadFile | src/core/Buffer.cpp:129-142 | lines and file data of the file become the clean saved text |
| Buffers.Buffer.MarkClean | src/core/Buffer.cpp:156-156 | the present text becomes the saved text |
| Buffers.DroppedStaysDistinct | src/core/BufferManager.cpp:16-24 | removing a name keeps the recent list free of duplicates |
| Buffers.FiledAgain | src/core/BufferManager.cpp:47-61 | filing one buffer and dropping names loses no other buffer |
| Buffers.BufferManager.CreateOrSelect | src/core/BufferManager.cpp:26-64 | selects or creates; the buffer that is left disappears exactly if it is transient; recent list and ownership stay consistent |
| Buffers.BufferManager.GetOrCreate | src/core/BufferManager.cpp:66-84 | finds or creates without selecting |
| Buffers.BufferManager.Select | src/core/BufferManager.cpp:86-94 | selects a known buffer and moves it to the front of the recent list |
| Buffers.BufferManager.Erase | src/core/BufferManager.cpp:108-130 | removes a buffer; there is always a current buffer afterwards |
| Buffers.BufferManager.NothingModified | src/core/BufferManager.cpp:162-171 | true exactly if no buffer is modified, and then all text is saved text |
| Addresses.Evaluate | src/runtime/AddressEvaluator.cpp:25-103 | every evaluated range lies within the buffer and is not reversed; which lines it has says `AddressLaws.AddressSelects` |
| AddressLaws.SingleSelects | src/runtime/AddressEvaluator.cpp:25-103 | a single address evaluates to exactly the existing line that it denotes: its number, the current line, the last one, or a distance from the current one |
| AddressLaws.PairSelects | src/runtime/AddressEvaluator.cpp:25-103 | a pair evaluates to exactly the lines between the two that it denotes, if both exist and are in order |
| AddressLaws.AddressSelects | src/runtime/AddressEvaluator.cpp:25-103 | every optional address evaluates to exactly the lines that it selects, and fails exactly if it selects none |
| AddressLaws.AppendGoesBehind | src/runtime/CommandExecutor.cpp:390-403 | `A` goes behind exactly the line that its address points to, or at the end |
| AddressLaws.InsertGoesBefore | src/runtime/CommandExecutor.cpp:411-429 | `I` goes in front of exactly that line, or of the current one |
| AddressLaws.TransferGoesBehind | src/runtime/CommandExecutor.cpp:434-448 | `T` copies behind exactly the line that its destination points to |
| AddressLaws.ReadGoesBehind | src/runtime/CommandExecutor.cpp:219-274 | `R` reads behind exactly the one line that its address selects, or into an empty buffer for `$` |
| Addresses.AppendPosition | src/runtime/CommandExecutor.cpp:390-403 | `A` inserts within the buffer or fails |
| Addresses.InsertPosition | src/runtime/CommandExecutor.cpp:411-429 | `I` inserts within the buffer or fails, also with no current line |
| Addresses.TransferDestination | src/runtime/CommandExecutor.cpp:434-448 | the destination of `T` lies within the buffer or it fails |
| Executor.ExecutionContext.ExecutePrint | src/runtime/CommandExecutor.cpp:36-43 | prints just the range, in order, and moves to its last line |
| Executor.ExecutionContext.ExecuteDelete | src/runtime/CommandExecutor.cpp:46-50 | removes exactly the range; a bad address changes nothing |
| Executor.ExecutionContext.ExecuteAppend | src/runtime/CommandExecutor.cpp:964-970 | inserts the typed lines at the position of `A` |
| Executor.ExecutionContext.ExecuteInsert | src/runtime/CommandExecutor.cpp:973-979 | inserts the typed lines at the position of `I` |
| Executor.ExecutionContext.ExecuteChange | src/runtime/CommandExecutor.cpp:984-995 | replaces the range by the typed lines, and where the cursor goes |
| Executor.ExecutionContext.ExecuteTransfer | src/runtime/CommandExecutor.cpp:496-509 | copies the range behind the destination line |
| Executor.ExecutionContext.ExecuteMove | src/runtime/CommandExecutor.cpp:456-493 | the destination becomes exactly the range, the source its remainder with its cursor, no other buffer changes, the source stays current, and the recent list is as after visiting the destination and leaving it again |
| Executor.ExecutionContext.ExecuteSubstitute | src/runtime/CommandExecutor.cpp:583-611 | each addressed line with a match is substituted, others stay; fails without effect if none matches; cursor on the last changed line |
| LineCommands.SubstitutedLinesAt | src/runtime/CommandExecutor.cpp:590-601 | line by line, what substitution over a range changes |
| LineCommands.LastMatchIsLast | src/runtime/CommandExecutor.cpp:590-609 | the line `S` ends on is the last one with a match |
| Executor.ExecutionContext.ExecuteZap | src/runtime/CommandExecutor.cpp:682-689 | moves to a single addressed line and does nothing else |
| Executor.ExecutionContext.ExecuteGlobal | src/runtime/CommandExecutor.cpp:708-766 | the loop over a buffer that shrinks under it does what the recursive definition of `G` says: lines, cursor, modified flag, output, condition and counter, also when a nested command fails halfway |
| LineCommands.VisitedIsProcessed | src/runtime/CommandExecutor.cpp:708-766 | what `G` leaves, independently of how it goes through the lines: prefix and suffix stay, each line of the range becomes what its own result says, output and counter are those of the selected lines; it succeeds exactly if no selected line fails |
| LineCommands.GlobalAdvance | src/runtime/CommandExecutor.cpp:727-763 | replacing the visited line by its result keeps the loop invariant of `G` |
| LineCommands.ProcessedFails | src/runtime/CommandExecutor.cpp:750-755 | one line on which the nested command fails makes `G` fail |
| LineCommands.WorkIsEdited | src/runtime/CommandExecutor.cpp:36-766 | the lines that each line command leaves, and when it fails, in terms of its range alone; except for `G`, a failing command leaves them as they were |
| GlobalLaws.DeleteFilters | src/runtime/CommandExecutor.cpp:757-763 | `G` with `D` leaves exactly the unselected lines, in order |
| GlobalLaws.InvertedIsComplement | src/runtime/CommandExecutor.cpp:729-735 | `G` and `G~` select each line exactly once between them |
| GlobalLaws.NothingLost | src/runtime/CommandExecutor.cpp:729-763 | what `G` deletes is what `G~` keeps, as multisets |
| GlobalLaws.DeleteIsIdempotent | src/runtime/CommandExecutor.cpp:757-763 | repeating a deleting `G` changes nothing |
| GlobalLaws.SubstituteMaps | src/runtime/CommandExecutor.cpp:750-755 | `G` with `S` succeeds exactly if every selected line has something to replace, and then maps over the selected lines only |
| GlobalLaws.SamePatternIsSubstitute | src/runtime/CommandExecutor.cpp:583-766 | `G/p/S/p/r/` never fails and does what `S/p/r/` does on the range |
| FileCommands.ExecuteRead | src/runtime/CommandExecutor.cpp:219-274 | `R` loads into an empty buffer or inserts at the addressed line, with cursor, file data, counter and condition; fails without effect |
| FileCommands.ExecuteWrite | src/runtime/CommandExecutor.cpp:304-385 | `W` writes exactly the range if it fits the encoding, else changes nothing; only a full write makes the buffer clean |
| FileCommands.CheckLines | src/runtime/CommandExecutor.cpp:276-296 | the two checking loops decide whether the range fits the encoding |
| FileCommands.ReadThenWriteBack | src/runtime/CommandExecutor.cpp:219-385 | reading an accepted file into an empty buffer and writing it back always succeeds, and leaves the file as it was exactly under the condition of `ReadThenWrite` |
| Editor.ExecuteQuit | src/runtime/CommandExecutor.cpp:664-680 | `Q` succeeds exactly if no buffer is modified, and then no unsaved text exists |
| Editor.ExecuteBuffer | src/runtime/CommandExecutor.cpp:873-883 | selects a buffer as its meaning on states says; the short form is refused while parentheses are required |
| Editor.ExecuteMessage | src/runtime/CommandExecutor.cpp:857-871 | writes a message of at most 2000 characters |
| Captures.PrintedIsCaptured | src/runtime/CommandExecutor.cpp:802-813 | printed lines without line ends of their own are captured by `ZG` as they were |
| Editor.Gather | src/runtime/CommandExecutor.cpp:835-849 | captured lines become the content of an empty destination, or go behind its current line; all other buffers and the rest of the state stay |
| Editor.ExecuteZapGather | src/runtime/CommandExecutor.cpp:821-850 | runs the nested command with an output of its own and gathers just what that printed; the output from before is restored on success and on failure |
| Editor.ExecuteList | src/runtime/CommandExecutor.cpp:57-79 | prints the lines of a file; fails without one |
| Editor.ExecuteFacts | src/runtime/CommandExecutor.cpp:628-645 | lists the options, or the recently used buffers in order |
| Editor.Execute | src/runtime/CommandExecutor.cpp:893-961 | every command does to the whole editor what its meaning on states says, all buffers, recent list, registers, options, output and files, and fails exactly when that fails |
| Editor.ExecuteInput | src/runtime/CommandExecutor.cpp:893-995 | the same with the text lines of `A`, `I` and `C`; saved text changes only to what its file holds, and the editor is left only by `Q` with all text saved or by `QQ` |
| Editor.Run | src/runtime/CommandExecutor.cpp:664-680 | runs each input in turn up to a successful `Q` or `QQ`: the log of states is the session of these inputs, so all of the laws of sessions hold of it |
| Sessions.PerformedKeepsText | src/runtime/CommandExecutor.cpp:219-385 | for every state and command, nested `ZG` included: saved text changes only to what the file of its buffer holds then, and only buffers without text disappear |
| Sessions.SessionsAreSafe | src/runtime/CommandExecutor.cpp:664-680 | over every session: the saved text of each buffer has not changed since its origin, which is the beginning, its creation with nothing saved, or a moment when its file held it; a buffer that is gone was empty before; after a successful `Q` all text is saved |
| Sessions.KeptIsRemembered | src/runtime/CommandExecutor.cpp:219-385 | what single commands keep is kept over any sequence of states |
| Tokens.Locate | include/fred/flow/FlowCharacterStream.hpp:38-64 | the counting loop gives every character its offset, line, column and level |
| Tokens.LocatedIsLocated | include/fred/flow/FlowCharacterStream.hpp:38-64 | offsets count up, and columns count up within a line and start again behind a line feed |
| Tokens.FlowCharacterStream.Consume | include/fred/flow/FlowCharacterStream.hpp:82-87 | returns the current character and moves on, or stays at the end |
| Lexing.Lexer.SkipHorizontalWhitespace | src/lexer/Lexer.cpp:189-208 | stops at the first character that is not ordinary space, tab or CR |
| Lexing.Lexer.Next | src/lexer/Lexer.cpp:64-144 | returns the token that starts behind the skipped whitespace, and stops at its end |
| Lexing.Lexer.TakeRun | src/lexer/Lexer.cpp:218-251 | takes the longest run of digits or identifier characters |
| Lexing.Lexer.Tokenize | src/lexer/Lexer.cpp:146-161 | all tokens up to and with the end token |
| SourceText.TokensAreSlices | src/lexer/Lexer.cpp:64-259 | lexemes are disjoint slices of the source in order, and only ordinary space, tab and CR lie between them |
| SourceText.RebuiltIsBlanked | src/parser/CommandParser.cpp:74-93 | within a line, lexemes and column gaps rebuild the source with its whitespace turned into spaces |
| SourceText.GapIsDistance | src/parser/CommandParser.cpp:83-85 | within a line, the column gap in front of a token is the number of bytes skipped there |
| SourceText.PlainTextIsTrimmed | src/parser/CommandParser.cpp:74-93 | without line feeds, plain text is the rest of the source trimmed of ordinary whitespace, with that inside as spaces |
| TokenStreams.TokenStream.Ensure | src/lexer/TokenStream.cpp:52-61 | the cache stays a prefix of all tokens and reaches the index or the end |
| TokenStreams.TokenStream.Peek | src/lexer/TokenStream.cpp:11-22 | any lookahead is the token of the eager list, or its end token |
| TokenStreams.TokenStream.Consume | src/lexer/TokenStream.cpp:24-33 | a cursor over the eager list that never passes the end token |
| TokenStreams.TokenStream.Rewind | src/lexer/TokenStream.cpp:43-50 | goes back exactly to positions not behind the current one |
| TokenStreams.CacheGrows | src/lexer/TokenStream.cpp:52-61 | what the lexer returns next is the first token not cached yet |
| Numbers.ParseNumber | src/parser/AddressParser.cpp:93-105 | the exact value if it fits the size type, and failure exactly otherwise; never a wrapped value |
| Numbers.DecimalValue | src/parser/AddressParser.cpp:93-105 | reading a printed number gives the number |
| AddressParsing.AddressParser.Parse | src/parser/AddressParser.cpp:19-30 | agrees with the grammar; a failure restores the token position |
| AddressParsing.AddressParser.ParsePrefixAddress | src/parser/AddressParser.cpp:32-51 | agrees with the grammar; a failure restores the token position |
| AddressParsing.AddressParser.ParseSingleAddress | src/parser/AddressParser.cpp:53-91 | agrees with the grammar of single addresses |
| AddressText.PrefixParsesBack | src/parser/AddressParser.cpp:32-105 | in front of anything that does not continue it, a printed address parses back to itself if its numbers fit, and not at all otherwise |
| AddressText.AddressRoundTrip | src/parser/AddressParser.cpp:19-105 | printing, typing, lexing and parsing an address gives it back exactly if its numbers fit the size type |
| CommandParsing.CommandParser.ConsumePlainText | src/parser/CommandParser.cpp:74-93 | rebuilds the operand up to the end of the line |
| CommandParsing.CommandParser.ParseParenthesizedName | src/parser/CommandParser.cpp:614-646 | agrees with the grammar of names in parentheses |
| CommandParsing.CommandParser.ParseOptionalFilename | src/parser/CommandParser.cpp:655-700 | agrees with the grammar of file names, quoted or not |
| CommandParsing.CommandParser.ParseMessageText | src/parser/CommandParser.cpp:98-162 | agrees with the grammar of messages |
| CommandParsing.CommandParser.ParseDelimitedPattern | src/parser/CommandParser.cpp:709-755 | collects source and metadata up to the closing delimiter and parses it, as the grammar says |
| CommandParsing.CommandParser.ParseReplacement | src/parser/CommandParser.cpp:811-836 | collects the replacement up to the closing delimiter, as the grammar says |
| CommandParsing.CommandParser.ParseSubstitution | src/parser/CommandParser.cpp:765-839 | agrees with the grammar of `S` |
| CommandParsing.CommandParser.CountsEven | src/parser/CommandParser.cpp:735-739 | the backward count decides whether the text ends in an even number of backslashes |
| CommandParsing.CommandParser.RequireCommandEnd | src/parser/CommandParser.cpp:844-858 | agrees with the grammar of command ends, chained or not |
| CommandParsing.CommandParser.Parse | src/parser/CommandParser.cpp:177-579 | agrees with the grammar of commands; whatever fails, nested or not, restores the token position (what every typed line parses to: `CommandTyping.TypedLineParses`) |
| CommandParsing.CommandParser.ParseOne | src/parser/CommandParser.cpp:588-600 | parses one command of a chain and restores the parser mode; a failure restores the position |
| CommandParsing.CommandParser.ParseNestedCommand | src/parser/CommandParser.cpp:439-452 | a nested command takes up the rest of the input and has no address |
| CommandGrammar.ParseCommand | src/parser/CommandParser.cpp:177-579 | a parsed command ends behind where it began and never behind the end token |
| CommandGrammar.CollectPattern | src/parser/CommandParser.cpp:723-751 | source and metadata of a collected pattern stay of equal length, and at least one token is taken |
| LiteralOperands.BodyCollected | src/parser/CommandParser.cpp:723-751 | collecting goes through a whole protected body and adds nothing to it |
| LiteralOperands.ProtectedOperandParses | src/parser/CommandParser.cpp:709-755 | a protected body between delimiters becomes the pattern of its own text exactly if it ends in an even number of backslashes; otherwise the operand does not parse |
| LiteralOperands.ProtectedPatternSelects | src/runtime/CommandExecutor.cpp:727-731 | `G` with such a pattern selects exactly the lines in which the text occurs |
| LiteralOperands.ProtectedReplacementParses | src/parser/CommandParser.cpp:811-836 | a protected replacement is collected as its own text exactly if it ends in an even number of backslashes; otherwise it never closes |
| PlainOperands.PlainOperandParses | src/parser/CommandParser.cpp:709-755 | an operand whose body has ordinary or forced bytes on one line, with every delimiter inside behind an odd number of backslashes and an even number at the end, is the pattern of these bytes without metadata |
| PlainOperands.ReplacementIsCollected | src/parser/CommandParser.cpp:811-836 | such a replacement is collected as its own text |
| Spans.SpanRebuilt | src/parser/CommandParser.cpp:74-93 | a piece of one line without tabs is rebuilt from its tokens up to the space at its end |
| CommandTyping.TypedLineParses | src/parser/CommandParser.cpp:177-579 | every typed line, which is any place, any command of any kind with its operands, and perhaps a line feed, parses to its meaning in a table that names no parser, and not at all if it has none: numbers too large, addresses that the command does not take, long messages, or a pattern that is none |
| CommandTyping.PlaceAlone | src/parser/CommandParser.cpp:177-200 | a star alone prints all lines, and an address alone is no command |
| CommandTyping.LastInChain | src/parser/CommandParser.cpp:844-858 | a command that ends the input is the same in a chain |
| CommandTyping.ChainParses | src/parser/CommandParser.cpp:588-600 | in a chain, a letter without operands and any command behind it are parsed one after the other |
| MalformedCommands.BrokenAddress | src/parser/AddressParser.cpp:32-91 | a sign without a number behind it and a comma without an address are no commands |
| MalformedCommands.WholeAddress | src/parser/AddressParser.cpp:19-30 | an address alone is followed by the end of the line |
| MalformedCommands.TooMuch | src/parser/CommandParser.cpp:844-858 | commands that are letters take nothing behind them |
| MalformedCommands.BrokenName | src/parser/CommandParser.cpp:614-646 | a name needs both parentheses and something between them |
| MalformedCommands.BrokenQuotes | src/parser/CommandParser.cpp:655-700 | a quoted file name needs both quotes, something between them, and nothing behind |
| MalformedCommands.BrokenMessage | src/parser/CommandParser.cpp:98-162 | a delimited message needs its delimiter again |
| MalformedCommands.BrokenPattern | src/parser/CommandParser.cpp:709-755 | a pattern needs its delimiter again, unprotected |
| MalformedCommands.BrokenReplacement | src/parser/CommandParser.cpp:811-836 | and so does a replacement |
| MalformedCommands.BrokenSearch | src/parser/CommandParser.cpp:431-456 | `G` needs a pattern between slashes or question marks and a command without address |
| MalformedCommands.BrokenOption | src/parser/CommandParser.cpp:305-430 | options are told by sign and letter, `Q` takes no shout, and a shout needs a command line |
| MarkedCommands.MarkedGlobalParses | src/parser/CommandParser.cpp:431-456 | behind any place, `G` and `G~` with an operand of ordinary, forced or protected bytes and any command parse to the search for its pattern, inverted for `G~`; a protected one is the pattern of its own text exactly if it ends in an even number of backslashes |
| MarkedCommands.ProtectedSubstituteParses | src/parser/CommandParser.cpp:765-839 | behind any place, `S/`, two protected texts with `/` behind each, parses to the pattern of the first and the replacement of the second, exactly if both end in an even number of backslashes |
| TypedCommands.TypedLineMeans | src/flow/FlowEngine.cpp:105-287 | from the bytes of the line on, through expansion, lexer and parser: every line without directives is the command that the table says, or none |
| TypedCommands.TypedGlobalParses | src/flow/FlowEngine.cpp:105-287 | the same for `G` and `G~` with an operand typed as it is, with `\O` or with `\C` before each byte: for protected text it is the search for exactly that text, if and only if it ends in an even number of backslashes |
| TypedCommands.ProtectedBackslashFails | src/parser/CommandParser.cpp:735-739 | such a line that is no command: `G/`, a protected backslash, `/P` |
| TypedCommands.TypedDelete | src/runtime/CommandExecutor.cpp:708-766 | behind any place, `G/w/D` and `G~/w/D` with an ordinary, forced or protected text: typed, parsed and run, it deletes exactly the lines of the range in which the text occurs, or does not, counts them, and touches no other buffer |
| TypedCommands.TypedPrint | src/runtime/CommandExecutor.cpp:708-766 | with `P`, it shows exactly these lines, in order, and changes none |
| TypedCommands.TypedLastDelete | src/runtime/CommandExecutor.cpp:46-50 | `$D` takes away just the last line, and the cursor is on the one before |
| TypedCommands.TypedPrintAll | src/runtime/CommandExecutor.cpp:36-43 | `*P`, `*` and `1,$P` show all lines and move to the last one |
| TypedCommands.TypedSubstituteParses | src/flow/FlowEngine.cpp:105-287 | from the bytes of the line on: a typed `S` with protected operands has exactly these, if and only if both end in an even number of backslashes |
| TypedCommands.TypedReplace | src/runtime/CommandExecutor.cpp:583-611 | behind any place, `S` with an ordinary or a protected text and one to put in its place: typed, parsed and run, it is plain replace-all on the range, moves to the last line with an occurrence, and fails exactly if there is none |
| CommandLaws.PrintShows | src/runtime/CommandExecutor.cpp:36-43 | the whole state after `P`: just the selected lines are shown, and the cursor is on the last one |
| CommandLaws.DeleteTakes | src/runtime/CommandExecutor.cpp:46-50 | the whole state after `D`: the lines above and below, and the cursor |
| CommandLaws.ZapMoves | src/runtime/CommandExecutor.cpp:682-689 | the whole state after `Z`; several lines fail |
| CommandLaws.TransferCopies | src/runtime/CommandExecutor.cpp:496-509 | the whole state after `T`: a copy of the selected lines behind the line that the destination points to |
| CommandLaws.NothingChosen | src/runtime/CommandExecutor.cpp:36-689 | commands without selected lines change nothing and fail |
| CommandLaws.AppendPuts | src/runtime/CommandExecutor.cpp:964-970 | the whole state after `A`, wherever its address points |
| CommandLaws.InsertPuts | src/runtime/CommandExecutor.cpp:973-979 | the whole state after `I` |
| CommandLaws.ChangePuts | src/runtime/CommandExecutor.cpp:984-995 | the whole state after `C`; without lines it is `D` |
| CommandLaws.SubstituteReplaces | src/runtime/CommandExecutor.cpp:583-611 | the whole state after `S`: every selected line has its matches replaced, the others stay, and the cursor is on the last line with a match |
| CommandLaws.SubstituteFails | src/runtime/CommandExecutor.cpp:583-611 | without a match only the condition is put out |
| SearchLaws.PrintShowsFound | src/runtime/CommandExecutor.cpp:708-766 | `G` with `P` shows the lines that it finds, in order |
| SearchLaws.SearchRuns | src/runtime/CommandExecutor.cpp:708-766 | the whole state after `G` with a command that succeeds on every line found: lines, output, counter, cursor, modified flag and condition, without following the loop |
| SearchLaws.SearchStops | src/runtime/CommandExecutor.cpp:708-766 | what `G` leaves behind if its command fails on a line: the lines up to there are done, and the cursor is on that line |
| SearchLaws.NestablesAre | src/runtime/CommandExecutor.cpp:712-724 | `G` runs `P`, `D`, `Z` and `S` without addresses, and nothing else |
| BufferLaws.MoveFills | src/runtime/CommandExecutor.cpp:456-493 | the whole state after `M` to another buffer: its content, what is left here, the recent list, and the buffers that stay |
| BufferLaws.MoveToItself | src/runtime/CommandExecutor.cpp:456-493 | `M` to the current buffer keeps just the selected lines |
| BufferLaws.SelectEnters | src/runtime/CommandExecutor.cpp:873-883 | the whole state after `B`: which buffers there are, what they hold, and their order |
| BufferLaws.GatherPuts | src/runtime/CommandExecutor.cpp:821-850 | the whole state after `ZG`, in terms of what its command shows |
| BufferLaws.QuitLeaves | src/runtime/CommandExecutor.cpp:664-680 | `Q` asks to leave exactly if no buffer is modified, and `QQ` always |
| BufferLaws.ReadLoads | src/runtime/CommandExecutor.cpp:219-274 | the whole state after `R` without an address, or its failure |
| BufferLaws.ReadInserts | src/runtime/CommandExecutor.cpp:219-274 | the whole state after `R` at an address, or its failure |
| BufferLaws.WriteStores | src/runtime/CommandExecutor.cpp:304-385 | the whole state after `W`, `WA`, `WU` or `WB`: the bytes of the file, and what the buffer knows of it then |
| BufferLaws.FilesAreTold | src/runtime/CommandExecutor.cpp:152-196 | which bytes are text, and how byte order mark, encoding, line ends and the end of the last line are told |
| BufferLaws.SwitchesSet | src/runtime/CommandExecutor.cpp:647-662 | the option commands set just their options |
| BufferLaws.MessageIsShown | src/runtime/CommandExecutor.cpp:857-871 | messages of up to 2000 bytes, and what the shell writes, are shown |
| BufferLaws.OptionsAreShown | src/runtime/CommandExecutor.cpp:628-645 | the text that `FO` shows |
| BufferLaws.BuffersAreShown | src/runtime/CommandExecutor.cpp:613-645 | each line that `FB` shows |
| Sessions.SessionBegins | src/runtime/CommandExecutor.cpp:664-680 | a session is its first input, and if that does not leave, a session with the others |
| GroundLaws.EncodedAs | src/runtime/CommandExecutor.cpp:98-143 | the bytes that encode a scalar value: how many there are, and how they carry its bits |
| GroundLaws.CapturedAs | src/runtime/CommandExecutor.cpp:802-813 | captured output is cut behind its line feeds |
| GroundLaws.NumbersAre | src/parser/AddressParser.cpp:93-105 | decimal digits, last one last |
| GroundLaws.OneByteTokens | src/lexer/Lexer.cpp:64-144 | the tokens of one byte, told by the byte and by whether it is protected |
| GroundLaws.WordTokens | src/lexer/Lexer.cpp:218-251 | the tokens of letters, digits and underscores |
| GroundLaws.PositionsAre | include/fred/flow/FlowCharacterStream.hpp:38-64 | offset, line, column and level of every byte, told from the byte before |
| BufferLaws.MoveFails | src/runtime/CommandExecutor.cpp:456-493 | without selected lines, or with a name that no buffer can have, `M` does nothing |
| BufferLaws.SelectFails | src/runtime/CommandExecutor.cpp:873-883 | when `B` does nothing |
| BufferLaws.NothingToWrite | src/runtime/CommandExecutor.cpp:304-385 | `W` at an address that selects no lines does nothing |
| BufferLaws.FileIsShown | src/runtime/CommandExecutor.cpp:57-79 | `L` shows the lines of a file, text or not |
| CommandLaws.NothingCopied | src/runtime/CommandExecutor.cpp:496-509 | `T` without selected lines or without a destination does nothing |
| CommandLaws.NoPlaceForText | src/runtime/CommandExecutor.cpp:964-995 | `A`, `I` and `C` without a place for their lines do nothing |
| SearchLaws.SearchFails | src/runtime/CommandExecutor.cpp:691-726 | `G` without lines, or with another command, does nothing |
| ExpansionLaws.LongNameFails | src/flow/FlowEngine.cpp:161-220 | a name of more than 64 bytes fails in command input too |
| ExpansionLaws.BackslashFlow | src/flow/FlowEngine.cpp:289-396 | two backslashes stand for one; a backslash in front of other bytes stays; `\C` and `\O` need a byte |
| GroundLaws.LettersAre | src/lexer/Lexer.cpp:210-259 | letters, digits, space and upper case are those of ASCII |
| GroundLaws.ScalarsAre | src/runtime/CommandExecutor.cpp:98-143 | the scalar values, and no others, are encoded |
| GroundLaws.SplitAs | src/runtime/CommandExecutor.cpp:181-194 | the text of a file is cut behind its line feeds |
| GroundLaws.WrittenAs | src/runtime/CommandExecutor.cpp:359-372 | lines are written with the line ends of their file |
| GroundLaws.SpaceIsPassed | src/lexer/Lexer.cpp:189-208 | only ordinary space, tabs and carriage returns are passed over |
| GroundLaws.SizesAre | src/parser/AddressParser.cpp:93-105 | sizes have 64 bits |
| GroundLaws.PastTheEnd | src/lexer/TokenStream.cpp:11-22 | past the last token there is always the end token |
| MalformedCommands.NoMnemonic | src/parser/CommandParser.cpp:202-285 | what does not begin with a command letter, two letters, a shout or a quote is no command |
| MalformedCommands.TooMuchBehind | src/parser/CommandParser.cpp:844-858 | nor is a command with something behind its operands |
| MalformedCommands.BrokenSelection | src/parser/CommandParser.cpp:487-530 | `B` needs a name, or one byte right behind it |
| MachineLaws.BlankLine | src/runtime/ProcedureRunner.cpp:603-612 | nothing happens on an empty line |
| MachineLaws.ProcedureEnds | src/runtime/ProcedureRunner.cpp:574-594 | behind its last line a procedure returns |
| MachineLaws.CommandIsNoControl | src/runtime/ProcedureRunner.cpp:621-669 | no typed command is taken for a directive, a label, a jump or a numeric line |
| MachineLaws.LineIsDone | src/runtime/ProcedureRunner.cpp:684-752 | behind the last command of a line control goes on behind the line |
| MachineLaws.CaseCountsNot | src/runtime/ProcedureRunner.cpp:125-139 | labels are compared without regard to case |
| MachineLaws.DefinesLabel | src/runtime/ProcedureRunner.cpp:162-185 | which lines define a label |
| MachineLaws.AllTextsAreIncluded | src/flow/FlowEngine.cpp:503-512 | lines can include the text of every buffer |
| ProcedureLaws.MarksAreTold | src/runtime/ProcedureRunner.cpp:103-112 | which lines are comments, and which end text |
| ProcedureLaws.OtherJumps | src/runtime/ProcedureRunner.cpp:193-236 | which lines are malformed jumps, or none |
| Procedures.FindJumpTarget | src/runtime/ProcedureRunner.cpp:241-270 | the first line in cyclic order behind the current one that defines the label; none exactly if no other line does |
| Procedures.JumpTargetIsUnique | src/runtime/ProcedureRunner.cpp:241-270 | there is at most one such line |
| Procedures.OperationsKeepOthers | src/runtime/ProcedureRunner.cpp:381-457 | numeric operations change no register but the one they name |
| Procedures.IntegerRoundTrip | src/runtime/ProcedureRunner.cpp:295-334 | a printed integer, with its sign, in the middle of any text reads back as itself exactly if it fits 64 bits |
| ProcedureRunning.ProcedureRunner.ApplyJump | src/runtime/ProcedureRunner.cpp:462-474 | a jump goes to its target, or nowhere if its condition does not hold, and fails without a target |
| ProcedureRunning.ProcedureRunner.ExecuteNumericSequence | src/runtime/ProcedureRunner.cpp:381-457 | the loop runs the operations as their recursive definition says; the counter ends as the register (what each operation does: `ProcedureLaws.NumericMeans`) |
| ProcedureLaws.NumericMeans | src/runtime/ProcedureRunner.cpp:275-457 | `N(register)` and any operations, as they are typed, do what they do one after the other, on a register named by 1 to 14 bytes; without operations it fails, and from the first number on that has more than 64 bits |
| ProcedureLaws.ComparisonMeans | src/runtime/ProcedureRunner.cpp:381-457 | for all 64-bit integers: assigning `a` and comparing with `b` leaves `a` in register and counter, and the outcome of the comparison in the condition |
| ProcedureLaws.LabelsAreTold | src/runtime/ProcedureRunner.cpp:144-185 | `@(name)` defines a label of 1 to 15 bytes without parentheses; other lines that begin with `@` are malformed |
| ProcedureLaws.JumpsAreTold | src/runtime/ProcedureRunner.cpp:193-236 | `J(label)`, alone or with `T` or `F` in either case, perhaps behind space; anything else behind it is malformed |
| ProcedureLaws.BufferDirectives | src/runtime/ProcedureRunner.cpp:81-101 | which lines are `\B(name)` directives, malformed ones, or none |
| ProcedureLaws.SpaceIsTrimmed | src/runtime/ProcedureRunner.cpp:38-48 | space around a line counts for nothing |
| ProcedureRunning.ProcedureRunner.CollectBlock | src/runtime/ProcedureRunner.cpp:723-736 | text lines up to the first terminator behind the command, and where it is |
| ProcedureRunning.ProcedureRunner.ReportContext | src/runtime/ProcedureRunner.cpp:488-504 | shows the current line and at most two more, and changes nothing else |
| ProcedureRunning.ProcedureRunner.RunParsed | src/runtime/ProcedureRunner.cpp:708-751 | a parsed command, with its text block if it takes one, takes the step of the machine |
| ProcedureRunning.ProcedureRunner.ExecuteNext | src/runtime/ProcedureRunner.cpp:708-751 | one command of a line is parsed and run as the step of the machine says: state, token position and line |
| ProcedureRunning.ProcedureRunner.ExecuteCommands | src/runtime/ProcedureRunner.cpp:684-752 | the loop over the commands of a line is a run of the machine from the first to behind the last, to the first that fails, or to the one that leaves |
| ProcedureRunning.ProcedureRunner.ExecuteControl | src/runtime/ProcedureRunner.cpp:644-669 | numeric operations and jumps, alone or together, are runs of the machine; lines that are neither are left alone |
| ProcedureRunning.ProcedureRunner.ExecuteExpanded | src/runtime/ProcedureRunner.cpp:621-675 | directives, labels, numeric lines, jumps and commands are told apart in this order, and each one is a run of the machine |
| ProcedureRunning.ProcedureRunner.ExecuteLine | src/runtime/ProcedureRunner.cpp:603-676 | what a line does, with the procedures it calls, is a run of the machine; an error is shown by the innermost procedure that can |
| ProcedureRunning.ProcedureRunner.RunBuffer | src/runtime/ProcedureRunner.cpp:574-594 | running a procedure at any depth is a run of the machine, whose backward jumps are exactly those used up; it is done only behind its last line or on leaving, out of jumps only in front of another backward jump, and fails only where the machine stops, with the same state and output |
| ProcedureRunning.ProcedureRunner.ExecuteBuffer | src/runtime/ProcedureRunner.cpp:519-594 | terminates whatever the procedures do, with the trace of that run from the first line to its end; over the trace saved text keeps its origin, and after a `Q` all text is saved |
| ProcedureRunning.ProcedureRunner.ExecuteDirective | src/runtime/ProcedureRunner.cpp:555-566 | handles exactly the lines that are `\B(name)` directives, and runs them as `ExecuteBuffer` does |
| ProcedureRunning.ProcedureRunner.LoadScript | src/runtime/ProcedureRunner.cpp:523-550 | a script loads exactly if its buffer is unused, the file is readable, and the current buffer is not one that is dropped when it is left; the whole state is what its meaning says |
| ProcedureRunning.ProcedureRunner.LoadAndExecute | src/runtime/ProcedureRunner.cpp:523-552 | a loaded script is run as the lines of its file; otherwise nothing is run |
| Scripts.LoadsExactlyIf | src/runtime/ProcedureRunner.cpp:523-550 | in every state, that condition is exact, and then the script's buffer holds the lines of the file and the current buffer is current again |
| Scripts.TransientBufferLoadsNothing | src/runtime/ProcedureRunner.cpp:523-550 | a concrete state from which a readable script does not load |
| ProcedureMachine.BlockEnd | src/runtime/ProcedureRunner.cpp:723-736 | the first terminator at or behind a line, or none |
| ProcedureRuns.StepsAreUnique | src/runtime/ProcedureRunner.cpp:574-676 | the machine is deterministic, and stops only where it takes no step |
| ProcedureRuns.RunsAgree | src/runtime/ProcedureRunner.cpp:574-594 | two runs from the same start agree as far as they go, so a larger budget of backward jumps only makes a run longer |
| ProcedureRuns.RunsAreSafe | src/runtime/ProcedureRunner.cpp:574-594 | over every run of procedures, saved text keeps its origin, and a run that was left by `Q` ends with all text saved |
| MachineLaws.ComparisonJumps | src/runtime/ProcedureRunner.cpp:381-474 | a line with an assignment, a comparison and a jump takes the jump exactly if the comparison holds, for `T`, or fails, for `F`, with the register and the counter as assigned |
| MachineLaws.NumericRuns | src/runtime/ProcedureRunner.cpp:381-474 | what any numeric line does to the machine: the next line, a jump, or the end of the procedure |
| MachineLaws.JumpRuns | src/runtime/ProcedureRunner.cpp:462-474 | what a jump does by its condition |
| MachineLaws.LabelRuns | src/runtime/ProcedureRunner.cpp:603-676 | a label is passed, and a malformed one stops the procedure |
| MachineLaws.CallRuns | src/runtime/ProcedureRunner.cpp:555-594 | `\B(name)` runs another procedure, if there is one and room for it |
| MachineLaws.CommandsBegin | src/runtime/ProcedureRunner.cpp:684-712 | any other line is its commands, shown if commands are monitored and it is no comment |
| MachineLaws.CommandRuns | src/runtime/ProcedureRunner.cpp:684-752 | a typed command in a procedure is run as if it was typed, and a text command takes the lines up to the one that ends its text; where a failure is reported |
| MachineLaws.JumpLands | src/runtime/ProcedureRunner.cpp:241-270 | a jump goes behind the next line that defines its label, or else behind the first one of the procedure that does |
| MachineLaws.NowhereToJump | src/runtime/ProcedureRunner.cpp:462-474 | without such a line the procedure stops where the jump is; and nothing happens once something asked to leave |
| MachineLaws.ContextShows | src/runtime/ProcedureRunner.cpp:488-504 | an error is shown with its line, up to two more, and dots if there are others |
| MachineLaws.ErrorIsShown | src/runtime/ProcedureRunner.cpp:488-517 | which procedure shows an error, and with which of its lines |
| ProcedureTermination.StepsAreKnown | src/runtime/ProcedureRunner.cpp:574-676 | every step of the machine is a backward jump, another command of the same line, a later line, a return, or a call below the maximum depth |
| ProcedureTermination.StepIsBelow | src/runtime/ProcedureRunner.cpp:574-594 | every step that is not a backward jump lowers what is left to do, outermost procedure first, whatever it does to buffers |
| ProcedureTermination.EndlessRunsJumpBack | src/runtime/ProcedureRunner.cpp:574-594 | no infinite run of the machine is without backward jumps from some point on |

## Left out

- Bytes at or above 0x80 in character classes compare as signed, as on x86-64; a platform with
  unsigned plain `char` orders them differently.
- `std::size_t` is taken to have 64 bits where numbers are parsed; forward relative addresses are
  added without an upper bound, which the program does not guard.
- The outer text of a full-flow expansion is a source of one line here, not a class of its own.
- Bit operations of the UTF-8 validator are written as arithmetic on the same ranges.
- Reuse of the flow engine after it has thrown, which the program documents as unsupported.
- Files have no permissions and no I/O errors: opening fails only for a name that does not exist,
  and writing always works.
- The shell behind `!` is a function from a command line to its output and success; real shells
  depend on more.
- `ctype` calls are those of the C locale.
- ProcedureRunning.ProcedureRunner.ExecuteBuffer: takes the number of backward jumps that a run may
  take, because a program's run can go on for ever and a method here must end; for every number the
  run is the program's own up to the jump that exceeds it (`ProcedureRuns.RunsAgree`).
- Tabs and carriage returns inside rebuilt operands become single spaces, as in the program; operands
  that contain line feeds are covered only when they are protected.
- Error messages, the description of patterns, and the source positions in errors and tree nodes.
- Help, the pager, terminal and Android front ends, start-up, environment and date.
- The registry of commands is a set of letters; registering further commands is not modelled.
