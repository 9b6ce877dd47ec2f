# Proofs about the message broker

This project models the decision-making core of the Industrial Protocol Message Broker and proves
what it is for: that compiled routing rules mean what their text says, that a message container is
accepted exactly when it is one and that damage to it is noticed, that the codecs invert each
other, that fragments reassemble, and that replaying a journal gives the state and the hash the
journal stands for. `dafny verify dfyconfig.toml` checks all of it.

## How to read it

Code that changes things step by step is a method or a class with the same fields, loops and exits
as the C function, proved equal to a specification function; the properties are then lemmas about
those functions. What the specification functions mean is pinned down once more by lemmas that do not
use them: numbers, opcodes, record kinds, magics and limits stand there as the source's own numbers,
and a parser is set against a written format, a list of tags or runs, or the words of a text, with a
lemma that every input is of that form. The modules follow the source files:

- **Bytes and numbers.** `Bytes` (widths, status codes, little-endian loads and stores), `ByteRead`
  (the cursor), `Words` (bit vectors and the integers they stand for), `Arithmetic` (powers of two and
  quotients by name).
- **Checksum.** `Checksum` works on the 32-bit register itself. Every bit step is linear over
  exclusive or and injective, and the byte loop is a bit-serial register. So every error confined to
  32 consecutive bits, at any bit offset, is detected, also when it hits the stored CRC. The
  table-driven form of RFC 1952, complements included, is shown to be the same function;
  `ProbeTableAgrees` compares the sixteen constants kept in src/protocol/crc_table.c with it.
- **Messages.** `Frames` and `FrameFormat` give the byte layout and the meaning of parsing,
  `FrameReader` the parser, `FrameDefects` the status of every input that is no message,
  `FrameCorruption` what happens to messages that are cut or damaged.
- **Rules.** `RuleLexer`, `RuleParser`, `RuleExplain` (text and records), `RuleTexts` (what texts and
  numbers in texts mean), `RuleBytecode`, `RuleCompiler` (records to bytes), `RouteVm` (the stack
  machine), `RuleExpressions` (the machine against the value of arbitrary expressions), `MatchTable`
  (the choice of the winner), `RuleRouting` (all of it together, from rule texts to the winner).
- **Sessions.** `SessionTracker` (the linked list), `Journals` (the state read off a journal without
  replaying it), `EventHash` (the hash fold), `EventLog` (snapshots that share the live entries),
  `ReplayEngine`, `CheckpointStore` (growable buffers).
- **Codecs and transport.** `RleCodec`, `DeltaCodec`, `DeltaTags` (what tagged streams mean),
  `Bitstream`, `Varint`, `TransportLayer`.

## Where the code decides otherwise than one might expect

- A container with no frames is accepted (src/protocol/frame_reader.c:59), although docs/FORMAT.md
  speaks of one or more frames. `FrameFormat.NoFramesIsAccepted` shows it, and `FrameFormat.CountIsExact`
  that it takes a frame count of zero.
- A header refused for its frame count or its CRC leaves the count in the record without a frame array
  (src/protocol/frame_reader.c:52-53). Searching such a record follows a null pointer
  (src/protocol/frame_reader.c:106-107); the search result `NullRead` stands for that.
  `FrameFormat.SearchableWhen` says for which statuses the record can be searched, and
  `FrameReader.FindInMessage` that a search after a parse is undefined exactly for a refused header with
  a count other than zero.
- Damage to a length field can go unnoticed. A burst that changes no frame's length field is refused
  exactly when it reaches a byte of the message (`FrameCorruption.BurstIsNoticed`). With one length byte
  changed, for every header and every frame there is a message that is accepted in both versions
  (`FrameCorruption.LengthBurstCanPass`): its payload is the CRC its header would have without payload.
- `best` in the match table is a pointer that is kept across `realloc` and read afterwards
  (src/routing/match_table.c:45, 55, 66). `MatchTable.Table.Evaluate` keeps an index and a ghost count of
  the blocks, and proves that a stale read happens exactly when a second rule matches. The result it
  states is the one C gives if the old block still reads the same; with at most one match it needs no
  such condition.
- The explained text of a range rule has no upper bound (src/routing/rule_explain.c:9), so parsing
  it back gives the same comparison if and only if the rule is not a range:
  `RuleExplain.ExplainThenParse`, and `RuleExplain.ExplainedRange` for what a range becomes.
- The sum in the fragment check is a 32-bit one (src/protocol/transport_layer.c:18). The verdict
  `Overrun` stands for the copy that is then undefined in C. `TransportLayer.OverrunExactly` says for
  which fragment lists reassembly gets there, `TransportLayer.GuardCanBeWrong` gives a list that does,
  and `TransportLayer.PayloadCanOverrun` a payload.
- Snapshots point at live entries, so a session terminated after a checkpoint leaves a dangling
  pointer behind (src/replay/event_log.c:36-38, src/session/session_tracker.c:73). Entries carry a ghost
  flag `live`. `ReplayEngine.ReplayJournal` takes every journal and proves that the summary reads a freed
  entry exactly when a session present at a checkpoint is terminated later;
  `ReplayEngine.CapturedThenFreed` gives the smallest such journal. For every other journal the hash
  is a fold over the journal: ids as they were at each checkpoint, update counts as they are at the
  end.
- The delta encoder writes absolute values only, and its stored count keeps 32 bits; the decoder
  refuses more than 100000 values. `DeltaCodec.RoundTripExactly` is the exact condition.

## Modelling decisions

- Integers have the widths of the C types wherever C wraps, truncates or reinterprets: the 32-bit
  field view of rules, `(int32_t)strtol`, the stored delta count, the fragment sum, the update
  counter. The delta accumulator's addition is taken as wrapping.
- The score of a rule is a signed C addition. `ScoresFit` asks that it does not overflow for the
  rules that match, since overflow is undefined (src/routing/match_table.c:65).
- `|=` with bits that are still zero is addition (varint and bit reader).
- `strtol` with base 0 is modelled for a 64-bit `long`, with clamping; `isspace` is that of the C
  locale; `snprintf` keeps what fits and returns the length wanted.
- `Terminate` walks with a predecessor node where C walks with a pointer to the link.
- Some loops, loop bodies and branch groups are helper methods (such as `PassSpaces`, `ReadHeader`,
  `ReadFrame`, `DecodeTag`, `CompareInPlace`, `RangeInPlace`, `OperateInPlace`, `EmitBody`, `Insert`, `Unlink`,
  `ReplayRecord`, `MakeRoom`), each with the source lines it stands for in the table below.
- A byte's bits are counted up from zero (`Octo`), which proofs can follow; the checksum loop itself uses
  the cast, and `Checksum.BitsIsCast` says that the two are the same.
- Allocation always succeeds and `size_t` arithmetic does not overflow.

## Model

| member | source | states |
|---|---|---|
| Bytes.StoreLe16 | src/util/endian.c:25-28 | writes the two bytes of the value, low byte first, and nothing else |
| Bytes.StoreLe32 | src/util/endian.c:30-35 | writes the four bytes of the value, low byte first, and nothing else |
| Bytes.LoadStored16 | src/util/endian.c:10-12 | loading what a 16-bit store wrote gives the value back, at any offset |
| Bytes.LoadStored32 | src/util/endian.c:14-17 | the same for 32 bits |
| Bytes.LoadStored64 | src/util/endian.c:19-23 | the same for 64 bits, read as two halves |
| Bytes.StoredLoad16 | src/util/endian.c:25-28 | storing a loaded 16-bit value reproduces the bytes |
| Bytes.StoredLoad32 | src/util/endian.c:30-35 | storing a loaded 32-bit value reproduces the bytes |
| Bytes.StoredLoad64 | src/util/endian.c:19-23 | storing a loaded 64-bit value reproduces the bytes |
| Bytes.WrapIsCongruent | src/codec/delta_codec.c:28 | truncation to 32 bits changes a number by a multiple of 2^32 |
| Bytes.WrapIsUnique | src/codec/delta_codec.c:28 | and is the only signed 32-bit value that differs from it so |
| Bytes.ConversionsAreWraps | src/routing/route_vm.c:15-16 | the conversion to a signed value is that truncation, and the one back undoes it |
| Words.CastIsExact | src/replay/event_log.c:48-50 | the 64-bit word of an id or a count has its value |
| Bitstream.LoadsAreNumbers | src/util/endian.c:10-23 | the loads of two, four and eight bytes are the little-endian numbers of those bytes |
| ByteRead.Reader.ReadU8 | src/util/byte_read.c:17-22 | consumes one byte and returns it, or reports a short read and leaves the cursor |
| ByteRead.Reader.ReadLe16 | src/util/byte_read.c:24-30 | consumes exactly two bytes or none |
| ByteRead.Reader.ReadLe32 | src/util/byte_read.c:32-38 | consumes exactly four bytes or none |
| ByteRead.Reader.ReadLe64 | src/util/byte_read.c:40-46 | consumes exactly eight bytes or none |
| ByteRead.Reader.ReadBytes | src/util/byte_read.c:48-54 | consumes exactly n bytes, which are the ones returned, or none |
| Checksum.ComputeExtend | src/util/checksum.c:3-14 | the masked bit loop computes the CRC register of the whole buffer |
| Checksum.ComputeCrc32 | src/util/checksum.c:16-19 | the CRC of a buffer is the extension of seed zero |
| Checksum.BitsIsCast | src/util/checksum.c:7 | the byte added to the register is the byte value cast to 32 bits |
| Checksum.BitLinear | src/util/checksum.c:9-10 | one bit step of an exclusive or is the exclusive or of the bit steps |
| Checksum.BitInjective | src/util/checksum.c:9-10 | different registers stay different after a bit step |
| Checksum.FeedLinear | src/util/checksum.c:6-12 | feeding is linear in register and data together, for buffers of any length |
| Checksum.FeedInjective | src/util/checksum.c:6-12 | the same data never makes two registers equal |
| Checksum.FeedIsClocks | src/util/checksum.c:6-12 | the byte loop is the bit-serial register fed with the bits of the buffer, lowest bit of each byte first |
| Checksum.BitsOfAt | src/util/checksum.c:9 | bit 8 j + k of the buffer is bit k of its byte j |
| Checksum.WindowDistinct | src/util/checksum.c:8-11 | from one register value, two different runs of at most 32 bits lead to different values |
| Checksum.FourBytesAreABurst | src/util/checksum.c:6-12 | a change within four consecutive bytes is a change within 32 consecutive bits |
| Checksum.ExtendComposes | src/util/checksum.c:3-14 | extending by a and then by b is extending by a followed by b, for every seed |
| Checksum.ExtendXor3 | src/util/checksum.c:3-14 | the CRC of the bytewise exclusive or of three buffers is the exclusive or of their CRCs |
| Checksum.BurstDetected | src/util/checksum.c:3-19 | buffers that differ only within 32 consecutive bits, starting at any bit, never have the same CRC under any seed |
| Checksum.SealedResidue | src/protocol/frame_reader.c:53 | a block with its own CRC behind it always leaves the register value 0xdebb20e3 |
| Checksum.SealBreaks | src/protocol/frame_reader.c:82-90 | a burst of 32 bits in such a block, stored CRC included, makes its CRC wrong |
| Checksum.TableFormAgrees | src/util/checksum.c:6-12 | the bit loop computes what the one-lookup-a-byte form of RFC 1952 computes |
| Checksum.ExtendIsTableForm | src/util/checksum.c:3-14 | for every seed and buffer, the result is the table form between its two complements by 0xffffffff |
| Checksum.CheckValue | src/util/checksum.c:16-19 | the CRC of "123456789" is 0xcbf43926 |
| FrameFormat.FrameIsRead | src/protocol/frame_reader.c:59-98 | the bytes of a well-formed frame are read back as that frame, wherever they lie |
| FrameFormat.ReadFrameIsExact | src/protocol/frame_reader.c:59-98 | an accepted frame is well formed and its bytes are exactly the ones consumed |
| FrameFormat.FramesAreRead | src/protocol/frame_reader.c:59-99 | a list of well-formed frames is read back whole |
| FrameFormat.ReadFramesAreExact | src/protocol/frame_reader.c:59-99 | the bytes consumed by the frame loop are the serialised frames |
| FrameFormat.HeaderAt | src/protocol/frame_reader.c:41-50 | every header field of a serialised message is recovered |
| FrameFormat.HeaderOf | tests/support/message_builder.c:66-71 | laying out the fields that were read gives the header bytes back |
| FrameFormat.SerializedIsParsed | src/protocol/frame_reader.c:32-100 | parsing any serialised message, with anything behind it, succeeds and recovers every field |
| FrameFormat.ParsedIsSerialized | tests/support/message_builder.c:66-84 | an accepted byte string starts with the serialisation of the message it yields, and that message is well formed |
| FrameFormat.AcceptedExactly | src/protocol/frame_reader.c:32-100 | a byte string is accepted if and only if it starts with the serialisation of a well-formed message |
| FrameFormat.NoFramesIsAccepted | src/protocol/frame_reader.c:55-59 | for all header fields, a header with frame count zero and its CRC is accepted |
| FrameFormat.CountIsExact | src/protocol/frame_reader.c:55-59 | an accepted message has as many frames as its count field says, none exactly when it is zero |
| FrameFormat.SearchableWhen | src/protocol/frame_reader.c:52-57 | the record left behind has the frame array its count promises if and only if the status is OK or the count is zero |
| FrameCorruption.TruncationIsShort | src/protocol/frame_reader.c:38-86 | every strict prefix of a serialised message reads as cut short and reports no field |
| FrameCorruption.HeaderBurstIsRejected | src/protocol/frame_reader.c:39-53 | a 32-bit burst that reaches the header of an accepted message is rejected with the status of the first failing check, whatever else it hits |
| FrameCorruption.FramesBurstIsRejected | src/protocol/frame_reader.c:59-90 | a 32-bit burst in the frames, within one or across two, that changes no length field gives a bad CRC and a cleared message |
| FrameCorruption.BurstIsNoticed | src/protocol/frame_reader.c:32-100 | for any 32-bit burst anywhere that changes no length field: rejected, with the status given, exactly when it reaches a byte of the message |
| FrameCorruption.LengthBurstCanPass | src/protocol/frame_reader.c:70-90 | for every header and frame, a message that is accepted, and accepted as another one with one length byte changed |
| FrameDefects.NoHeader | src/protocol/frame_reader.c:37-39 | fewer than 28 bytes are a short read, and anything but "IPMB" in front a bad magic; the record stays cleared |
| FrameDefects.DefectiveHeader | src/protocol/frame_reader.c:52-53 | more than 1024 frames are refused before the header CRC is looked at, then a wrong CRC; the header's fields stay in the record |
| FrameDefects.DefectiveFrame | src/protocol/frame_reader.c:59-90 | after good frames, the first frame that is too large, cut off or wrongly sealed decides the status, and the record is cleared |
| FrameDefects.EveryTailIsJudged | src/protocol/frame_reader.c:64-90 | every byte string behind good frames is one of these or starts with a good frame |
| FrameReader.Message.Clear | src/protocol/frame_reader.c:22-30 | every field is zero and no frame is left |
| FrameReader.ParseMessage | src/protocol/frame_reader.c:32-100 | for every byte string, status and message record are the specified ones |
| FrameReader.ReadHeader | src/protocol/frame_reader.c:41-47 | the six reads recover all header fields and the stored CRC |
| FrameReader.ReadFrameHead | src/protocol/frame_reader.c:68-77 | the seven reads take the twenty header bytes apart field by field |
| FrameReader.ReadFrame | src/protocol/frame_reader.c:60-97 | one pass of the loop returns the frame and its end, or the status of the first failing check |
| FrameReader.FirstFrame | src/protocol/frame_reader.c:102-110 | in any record a parse can leave: the earliest frame of the type, none if there is none, or the null read |
| FrameReader.FindInMessage | tests/unit/protocol_tests.c:16-21 | parsing and then searching is undefined exactly for a refused header with a count other than zero |
| RuleLexer.Lex | src/routing/rule_lexer.c:5-20 | leaves the first words of the text, each cut to 31 characters, and touches no other token |
| RuleLexer.WhiteSpaceIs | src/routing/rule_lexer.c:10 | white space is the six characters of the C locale |
| RuleLexer.PassSpaces | src/routing/rule_lexer.c:10 | stops at the first character that is not white space |
| RuleLexer.CopyToken | src/routing/rule_lexer.c:12-15 | copies the word, cut to 31 characters |
| RuleLexer.PassWord | src/routing/rule_lexer.c:17 | stops behind the whole word, however long |
| RuleLexer.TokensOfLayout | src/routing/rule_lexer.c:9-18 | the tokens are the words, whatever white space separates them |
| RuleLexer.EveryTextIsALayout | src/routing/rule_lexer.c:9-18 | every text consists of words and white space, so the tokens are characterised for all texts |
| RuleLexer.TokensAreWords | src/routing/rule_lexer.c:12-15 | every token is a nonempty word of at most 31 characters |
| RuleParser.Parse | src/routing/rule_parser.c:14-36 | status and record for every text, including the fields left in a refused record |
| RuleParser.ParsedFieldIsWord | src/routing/rule_parser.c:21-30 | the field of a parsed rule is one short word, and is "range" for range rules only |
| RuleExplain.DecimalIsExact | src/routing/rule_explain.c:9 | decimal digits spell the number and do not start with zero |
| RuleExplain.PrintedIntIsRead | src/routing/rule_parser.c:32 | base-0 reading of a printed 32-bit value, negative or not, gives the value back |
| RuleExplain.Reparsed | src/routing/rule_parser.c:18-35 | what parsing the explained text of any rule gives, ranges and fields named "range" included |
| RuleExplain.ExplainThenParse | src/routing/rule_explain.c:4-10 | parsing the explained text gives the same field, operator and value if and only if the rule is no range |
| RuleExplain.ExplainedRange | src/routing/rule_explain.c:6-9 | an explained range reads back as an equality with its lower bound, or is refused |
| RuleExplain.FiftyBytesSuffice | src/routing/rule_explain.c:9 | the explained text of any parsed rule fits a buffer of fifty bytes uncut |
| RuleExplain.CanonicalTextIsKept | src/routing/rule_explain.c:6-9 | a comparison written with single blanks and in decimal is explained exactly as it was written |
| RuleExplain.BufferHoldsPrefix | src/routing/rule_explain.c:9 | a short buffer gets as much of the text as fits before the terminator, and the whole length is returned |
| RuleTexts.NumberIsRead | src/routing/rule_parser.c:25-26 | white space, a sign, a decimal, octal or hexadecimal prefix, digits in either case and any other text read as the signed number, within the range of a long |
| RuleTexts.NumberIsWrapped | src/routing/rule_parser.c:25-26 | as a 32-bit value that is the number wrapped, and -1 or 0 beyond the range of a long |
| RuleTexts.WordsAreTokens | src/routing/rule_parser.c:18 | the first ten words of a text, in any white space, each cut to 31 characters |
| RuleTexts.RangeText | src/routing/rule_parser.c:21-29 | "range", a field and two numbers: the first is the lower bound, the second the upper, the next word the action, the priority 10 |
| RuleTexts.ComparisonText | src/routing/rule_parser.c:30-35 | a field, an operator and a number, and then at will an action and a priority, which is 10 if left out |
| RuleTexts.ShortTextIsRefused | src/routing/rule_parser.c:19-22 | refused exactly with fewer than three words, or three of which the first is "range" |
| RuleTexts.RangeAccepts | src/routing/rule_parser.c:21-29 | a range text accepts exactly the frames whose field is at least its first and at most its second number |
| RuleTexts.ComparisonAccepts | src/routing/rule_parser.c:7-12 | ">" and "gt" accept a greater field, "<" and "lt" a smaller one, and every other operator an equal one |
| RuleBytecode.Bytecode.Emit | src/routing/rule_compiler.c:19-28 | appends the bytes, or refuses and changes nothing if the program would exceed 4096 bytes |
| RuleBytecode.Bytecode.EmitU8 | src/routing/rule_compiler.c:30-33 | the same for one byte |
| RuleBytecode.Bytecode.EmitI32 | src/routing/rule_compiler.c:35-40 | the same for a signed value in little-endian order |
| RuleBytecode.Bytecode.Free | src/routing/rule_compiler.c:79-85 | leaves an empty program |
| RuleBytecode.Bytecode.Clone | src/routing/rule_compiler.c:68-77 | a new program with the same bytes |
| RouteVm.Step | src/routing/route_vm.c:34-88 | every instruction moves the program counter forward and keeps the stack within 64 slots |
| RouteVm.CompareInPlace | src/routing/route_vm.c:46-54 | pops two values and leaves their comparison, the upper one on the right, or rejects |
| RouteVm.RangeInPlace | src/routing/route_vm.c:55-67 | pops three values and leaves the two bound checks in order, or rejects when short of operands or of a free slot |
| RouteVm.OperateInPlace | src/routing/route_vm.c:46-78 | pops, computes and pushes in the array as specified, or rejects |
| RouteVm.Evaluate | src/routing/route_vm.c:24-91 | for arbitrary bytes the loop ends within bounds with the verdict of the specified run; no match is reported with an error |
| RouteVm.VerdictComesFromEnd | src/routing/route_vm.c:82-86 | a verdict is given only by an END the run reaches, from the value on top of the stack there |
| RouteVm.StuckExactly | src/routing/route_vm.c:36-90 | a step fails exactly for an unknown opcode, missing operand bytes, too few values or a full stack, each by the source's numbers, and a run fails there and at the end of the code |
| RuleExpressions.RunLoad | src/routing/route_vm.c:41-45 | LOAD pushes the field, or fails exactly when the stack is full |
| RuleExpressions.RunPush | src/routing/route_vm.c:35-40 | PUSH pushes the signed value that was emitted, or fails exactly when the stack is full |
| RuleExpressions.RunJump | src/routing/route_vm.c:79-81 | FORWARD and TAG go on behind the bytes they count, inside the code or not |
| RuleExpressions.RunBetween | src/routing/route_vm.c:55-74 | three operand programs, RANGE and AND leave one Boolean for low <= operand <= high |
| RuleExpressions.RunSkipped | src/routing/route_vm.c:79-81 | bytes that are jumped over have no effect on the value |
| RuleExpressions.RunNot | src/routing/route_vm.c:75-78 | one operand program and NOT leave whether the operand is 0 |
| RuleExpressions.RunOperands | src/routing/route_vm.c:46-74 | two operand programs and a comparison, AND or OR leave the machine's joined value, or fail exactly for want of slots |
| RuleExpressions.RunPair | src/routing/route_vm.c:46-74 | that value is the comparison, conjunction or disjunction of the operands' values |
| RuleExpressions.RunExpr | src/routing/route_vm.c:33-85 | the code of any expression, between any other code and on any stack, leaves its value, or fails exactly when it needs more slots than are free |
| RuleExpressions.ProgramDecides | src/routing/route_vm.c:24-91 | a whole program answers whether the value is other than 0 if 64 slots suffice, and an error otherwise; bytes behind END do not matter |
| RuleCompiler.Compile | src/routing/rule_compiler.c:42-66 | status and program for every record; the emission limit is never reached |
| RuleCompiler.EmitBody | src/routing/rule_compiler.c:48-60 | the emitted bytes are the postfix code of the rule's expression |
| RuleCompiler.EmitRange | src/routing/rule_compiler.c:49-53 | the emitted bytes are the postfix code of the range |
| RuleCompiler.CompiledRuleDecides | src/routing/rule_compiler.c:42-66 | a rule compiles exactly when it names a field, and its program accepts exactly the frames that meet its condition |
| MatchTable.Table.Add | src/routing/match_table.c:20-38 | appends the rule with its name cut to 31 characters and a copy of its program; earlier rules are unchanged |
| MatchTable.Table.Evaluate | src/routing/match_table.c:40-78 | returns the earliest of the matching rules of greatest score, or NOT_FOUND exactly when none matches; re-pointing `best` does not change the winner; a read through the replaced block happens exactly when two rules match |
| MatchTable.HitsAreMeanings | src/routing/match_table.c:49-51 | for compiled rules, the matching rules are exactly those whose condition holds |
| MatchTable.RoutingByMeaning | src/routing/match_table.c:40-78 | for compiled rules, the winner is the earliest of greatest priority among those whose condition holds, both directions |
| MatchTable.WinnerIsUnique | src/routing/match_table.c:66-68 | at most one rule can be the winner |
| RuleRouting.LoadRules | fuzz/match_table_fuzzer.c:22-43 | the table holds exactly the rules whose text parses and compiles, in order |
| RuleRouting.LoadedRulesRoute | src/routing/match_table.c:40-78 | the winner among the loaded rules is the winner among the texts, and none wins exactly when no text's condition holds |
| RuleRouting.Route | tests/unit/routing_tests.c:19-40 | from texts to winner: the frame goes to the earliest of greatest priority of the rules whose text states a condition it meets, and to none exactly when there is none |
| RuleRouting.RouteIsUnique | src/routing/match_table.c:66-68 | at most one text can be the winner |
| SessionTracker.Tracker.Find | src/session/session_tracker.c:28-35 | the node of the session, or null when it has none |
| SessionTracker.Tracker.Push | src/session/session_tracker.c:49-50 | links the node in front and keeps the rest of the list |
| SessionTracker.Tracker.Insert | src/session/session_tracker.c:45-51 | a new node at the head, the rest of the list unchanged |
| SessionTracker.Tracker.Record | src/session/session_tracker.c:53-60 | one session gains a payload and an update, the others keep theirs |
| SessionTracker.Tracker.Upsert | src/session/session_tracker.c:37-62 | the list stays acyclic, counted and free of repeated ids; exactly the named session changes or is created in front, and old nodes stay |
| SessionTracker.Tracker.Unlink | src/session/session_tracker.c:69-75 | the node leaves the list and is freed, the others keep their order and contents |
| SessionTracker.Tracker.SkipNode | src/session/session_tracker.c:71 | the link to the node points at its successor, and the list stays acyclic |
| SessionTracker.Tracker.Terminate | src/session/session_tracker.c:64-79 | exactly the named session is removed and its node freed, or NOT_FOUND and no change |
| Journals.SessionsAreTheirParts | src/replay/replay_engine.c:14-25 | after any journal a session is listed exactly when it has records since its last TERMINATE, and then has the first one's peer, their number and their joined payloads; ids are distinct |
| Journals.RecordKinds | src/replay/replay_engine.c:16-23 | kinds 1, 2 and 3 add to their session, kind 4 ends it, and no other kind changes any |
| Journals.BirthIsCreation | src/session/session_tracker.c:44-52 | the creating record is the first addition since the last TERMINATE |
| Journals.SessionsAreYoungestFirst | src/session/session_tracker.c:49-50 | after any journal the list is in reverse order of latest creation |
| EventHash.HashOfNothing | src/replay/event_log.c:44 | the hash starts at 0x14650fb0739d0383 |
| EventHash.HashOfOneMore | src/replay/event_log.c:48-51 | one more pair is an exclusive or with the id, a product with 0x100000001b3, an exclusive or with the count and a product again |
| EventHash.HashOfTestJournal | tests/support/message_builder.c:90-107 | the hash for that journal's one captured session with two updates is 0x9a6c7b00c54b9f8a |
| EventHash.OneChangeIsSeen | src/replay/event_log.c:45-53 | lists of one length that differ in exactly one id or count never have the same hash |
| EventLog.Log.TakeSnapshot | src/replay/event_log.c:18-40 | the log gains the nodes themselves, in list order |
| EventLog.Log.Summarize | src/replay/event_log.c:42-55 | the hash is the fold over ids and present update counts of all captured nodes, and is defined exactly when none of them has been freed |
| ReplayEngine.ReplayableStep | src/replay/replay_engine.c:21-23 | a record makes a journal unsafe exactly when it terminates a session captured before |
| ReplayEngine.CheckpointsCapture | src/replay/replay_engine.c:19-20 | kind 5 captures the ids listed at that point, in order, and no other kind captures any |
| ReplayEngine.CapturedThenFreed | src/replay/replay_engine.c:14-26 | a journal that checkpoints a session and then terminates it is unsafe |
| ReplayEngine.ReplayRecord | src/replay/replay_engine.c:15-24 | one record keeps the list equal to the journal's sessions and the captured nodes on the list, or frees a captured node |
| ReplayEngine.ReplayRecords | src/replay/replay_engine.c:14-25 | after any journal the list is the journal's sessions; captured nodes are all on it if the journal is safe, and one is freed if it is not |
| ReplayEngine.CapturedIsFinal | src/replay/replay_engine.c:26 | captured nodes that are on the list are live, with their ids at the checkpoint and their final counts |
| ReplayEngine.ReplayJournal | src/replay/replay_engine.c:6-30 | for every journal: the summary reads no freed entry exactly when no captured session is terminated later, and then the hash is a fold over the journal, ids at each checkpoint and update counts at the end |
| RleCodec.DecodeBytes | src/codec/rle_codec.c:5-31 | status and output for every byte string, through any number of buffer growths |
| RleCodec.EncodeBytes | src/codec/rle_codec.c:33-51 | the output is the greedy encoding, and the buffer allocated at the start is large enough |
| RleCodec.DecodeEncode | src/codec/rle_codec.c:5-51 | decoding an encoded byte string gives it back |
| RleCodec.RunsDecode | src/codec/rle_codec.c:8-27 | the magic, any runs, empty ones too, and at most one odd byte decode to each value as often as its run is long |
| RleCodec.EveryStreamIsRuns | src/codec/rle_codec.c:8-27 | every stream is of that form or has a bad magic |
| RleCodec.DropOne | src/codec/rle_codec.c:42 | removing the first byte never makes the greedy encoding longer |
| RleCodec.EncodeIsShortest | src/codec/rle_codec.c:33-51 | no stream that decodes to x, with split or empty runs or an odd tail, is shorter than the encoding of x |
| DeltaCodec.DecodeBytes | src/codec/delta_codec.c:6-43 | status and values for every byte string |
| DeltaCodec.DecodeTag | src/codec/delta_codec.c:18-38 | one tag writes the values, moves the position and sets the accumulator as specified, or stops the loop |
| DeltaCodec.Repeat | src/codec/delta_codec.c:33 | writes the smaller of the run and the room left, all copies of the accumulator |
| DeltaCodec.PutHeader | src/codec/delta_codec.c:51-53 | magic, fixed byte and low 32 bits of the count |
| DeltaCodec.PutEntry | src/codec/delta_codec.c:56-58 | tag zero and the value in little-endian order behind what was written |
| DeltaCodec.EncodeValues | src/codec/delta_codec.c:45-63 | header and tagged absolute values, filling the buffer exactly |
| DeltaCodec.DecodeEncode | src/codec/delta_codec.c:6-63 | what decoding an encoded list gives, for every length |
| DeltaCodec.RoundTripExactly | src/codec/delta_codec.c:11 | a list survives the codec if and only if it has at most 100000 values |
| DeltaCodec.CutStreamIsPrefix | src/codec/delta_codec.c:17-39 | cutting a stream behind its header gives a prefix of the full output |
| DeltaCodec.CountIsABound | src/codec/delta_codec.c:10-17 | never more values than declared |
| DeltaTags.TagsDecode | src/codec/delta_codec.c:17-39 | a header, any tags and a rest at which decoding stops give the running sums of the tags over the integers, wrapped to 32 bits and cut to the count; more than 100000 are refused |
| DeltaTags.EveryStreamIsTags | src/codec/delta_codec.c:17-39 | every byte string is a list of tags and such a rest |
| DeltaTags.RefusedExactly | src/codec/delta_codec.c:9-11 | a bad magic is exactly a missing header or other first four bytes, and a refusal gives no values |
| DeltaTags.EncoderWritesAbsolutes | src/codec/delta_codec.c:48-59 | the encoder's output byte for byte, one absolute tag for each value |
| Bitstream.BitReader.Read | src/codec/bitstream.c:10-23 | a read of k bits at p returns floor(N / 2^p) mod 2^k for the little-endian number N of the buffer; a refused read leaves the position |
| Bitstream.BitIsShift | src/codec/bitstream.c:17-19 | the bit picked by byte and offset is that binary digit of N |
| Bitstream.ReadsCompose | src/codec/bitstream.c:16-20 | reading a bits and then b bits is one read of a+b bits taken apart |
| Varint.DecodeBytes | src/util/varint.c:3-18 | status, value and bytes used for every byte string |
| Varint.EncodeBytes | src/util/varint.c:20-33 | writes the encoding if there is room for all of it, else as much as fits with a short read |
| Varint.EncodeShape | src/util/varint.c:24-30 | only the last byte ends the number, and the groups spell the value |
| Varint.TenBytesSuffice | src/util/varint.c:25 | no 64-bit value needs more than ten bytes |
| Varint.DecodeEncode | src/util/varint.c:3-33 | an encoded value is read back with the bytes it took, whatever follows |
| Varint.RefusedExactly | src/util/varint.c:8-17 | decoding fails exactly when none of the first ten bytes has a clear top bit |
| Varint.EncodeIsShortest | src/util/varint.c:8-14 | no byte string that decodes to v uses fewer bytes than the encoding of v |
| TransportLayer.Reassemble | src/protocol/transport_layer.c:6-27 | verdict for every fragment list; on success the image of all fragments over zeros, on an overrun the image of the fragments before it |
| TransportLayer.VerdictExactly | src/protocol/transport_layer.c:12-26 | refused for size exactly above 4194304 bytes or 4096 fragments, and accepted exactly when otherwise all fragments fit |
| TransportLayer.Copy | src/protocol/transport_layer.c:22 | one fragment replaces exactly its range of the buffer |
| TransportLayer.GuardIsRightWhen | src/protocol/transport_layer.c:18 | the 32-bit check agrees with the meant condition if and only if the sum does not wrap or wraps above the total |
| TransportLayer.OverrunExactly | src/protocol/transport_layer.c:12-23 | reassembly overruns if and only if, within its limits, a fragment whose 32-bit sum wraps to at most the total follows fragments that all fit |
| TransportLayer.GuardCanBeWrong | src/protocol/transport_layer.c:16-22 | a one-byte fragment at the last offset passes the check, fits nowhere, and makes reassembly overrun |
| TransportLayer.PayloadCanOverrun | src/protocol/transport_layer.c:34-55 | a payload that holds this fragment parses and overruns, whatever follows it |
| TransportLayer.ImageAt | src/protocol/transport_layer.c:13-23 | each output byte is that of the last fragment covering it, or zero |
| TransportLayer.OrderDoesNotMatter | src/protocol/transport_layer.c:16-23 | disjoint fragments give the same buffer in every order |
| TransportLayer.PiecesReassemble | src/protocol/transport_layer.c:16-23 | true pieces that cover a buffer make it again, in any order and with any overlap |
| TransportLayer.SplitReassembles | src/protocol/transport_layer.c:6-27 | any permutation of a split of a buffer is accepted and reassembles it |
| TransportLayer.ParseFragmentPayload | src/protocol/transport_layer.c:29-58 | verdict and buffer for every payload |
| TransportLayer.PayloadIsRead | src/protocol/transport_layer.c:34-54 | a written fragment payload is read back whole, whatever follows it |
| TransportLayer.CutPayloadIsRefused | src/protocol/transport_layer.c:34-51 | every strict prefix of a written payload is refused, for its magic below ten bytes and as cut short from then on |
| TransportLayer.ReadPayloadIsWritten | src/protocol/transport_layer.c:34-54 | a payload that is read starts with the written form of what is read |
| TransportLayer.PayloadExactly | src/protocol/transport_layer.c:34-54 | fragments exactly for the extensions of written payloads, a bad magic exactly without the header, a short read otherwise |
| CheckpointStore.GrownBounds | src/session/checkpoint_store.c:46 | a growth overshoots the need by less than a half and multiplies the capacity by at least 3/2 |
| CheckpointStore.AppendIsSound | src/session/checkpoint_store.c:43-53 | one append keeps the capacity and copying bounds |
| CheckpointStore.CopyingIsLinear | src/session/checkpoint_store.c:43-53 | over any run of appends, used <= capacity <= max(16, 3/2 used), which covers the consistency check, and at most 3 used bytes were ever moved |
| CheckpointStore.BuffersAreTheirPayloads | src/session/checkpoint_store.c:36-55 | after any run of appends, exactly the sessions named have a buffer, one each, holding their payloads in order |
| CheckpointStore.State.Append | src/session/checkpoint_store.c:43-54 | the payload is appended, and capacity and bytes moved follow the account, within its bounds |
| CheckpointStore.State.MakeRoom | src/session/checkpoint_store.c:43-51 | room for the need by the growth policy, the contents kept, and the old block charged exactly when it is replaced |
| CheckpointStore.State.Regrow | src/session/checkpoint_store.c:47-50 | a new block with the old contents; the whole old block counts as moved |
| CheckpointStore.State.CopyIn | src/session/checkpoint_store.c:52-53 | the payload follows the bytes in use |
| CheckpointStore.Store.Find | src/session/checkpoint_store.c:20-22 | the place of the session, or the number of elements |
| CheckpointStore.Store.Add | src/session/checkpoint_store.c:23-33 | a new empty element at the end, doubling the room from four when it is full |
| CheckpointStore.Store.FindOrAdd | src/session/checkpoint_store.c:18-34 | the place of the session's element, created empty if it had none; nothing else changes |
| CheckpointStore.Store.AppendAt | src/session/checkpoint_store.c:43-54 | one buffer grows by the payload, all others keep their blocks and contents |
| CheckpointStore.Store.Append | src/session/checkpoint_store.c:36-55 | the store becomes the specified one, its buffers stay apart and within their bounds |

## Left out

- ReplayEngine.ReplayJournal: gives no hash for the journals it proves to read freed memory.
- MatchTable.Table.Evaluate: requires that no score of a matching rule overflows, because signed overflow is undefined in C; when two rules match, the result it states assumes that the block `best` points into still reads the same after `realloc`.
- RuleRouting.Route: has the same two conditions as the table's evaluation.
- FrameCorruption.BurstIsNoticed: excepts bursts that change a frame's length field, for which LengthBurstCanPass shows the claim to be false; the CRC of another stretch of bytes then decides.
- TransportLayer.Reassemble: stops with the verdict Overrun before the copy that is undefined in C.
- SessionTracker.Tracker.Insert: node ids are constants, as the C code assigns them at creation only.
- `ipmb_checkpoint_migrate`: it sets the capacity one below what is used, so it does not keep the store's bounds; the append theorems are about append-only runs.
- Ring window: rollback restores segment pointers that later appends release; without rollback it is an easy sliding window.
- Register map decoder: its validation and its copy use different bases, and its own note says the meant behaviour is open.
- Journal and telemetry parsers: the shape of the frame parser without checksums; replay starts from parsed records.
- Histogram, sample buffer, time series, storage, risk score: growable arrays and sums.
- Schema, protocol and session catalogues: data.
- Command-line programs, fuzz drivers, build scripts: input and output only.
- Allocation failure and freeing, except the freeing of list nodes, which replay depends on.
- Sharing of the caller's input buffers: inputs are sequences, so a callee cannot see them change.
