# Livox driver: JSON engine and point-frame pipeline

A Dafny model of the two parts of the Livox ROS driver that carry the most logic, with proofs about them.

**The JSON engine** is the vendored RapidJSON that reads every configuration file. The model covers both of its parsers (recursive descent and the table-driven pushdown machine), the string decoder that works in the source buffer, the compact, pretty and ASCII-escaping writers, the document handler, the comparison of documents, the UTF-8 codec, JSON Pointer, the streaming schema validator and the memory pool.

**The point-frame pipeline** is the driver's own: one thread gathers points per lidar and pushes frames into power-of-two rings with free-running 32-bit indices, raising a semaphore when its count is zero; another waits on the semaphore and drains the rings.

## How it is built

| files | content |
|---|---|
| `Bytes`, `Utf8`, `Sax` | texts, the codec against the grammar of RFC 3629, events and parse flags |
| `Strings`, `Numbers`, `DecodedStrings` | string literals and number literals, read and written, and when a decoded string is well-formed |
| `Descent`, `Pushdown`, `ParserEquivalence` | what each parser does, and that they agree |
| `Reader` | the parser object over a mutable buffer, proved against both specifications |
| `Grammar`, `GrammarLeaves`, `GrammarErrors`, `GrammarProof`, `LeadingSpace` | the grammar of JSON texts in bytes, independent of any parser, and that each parser accepts and refuses exactly by it |
| `Dom`, `Layout`, `ReadBack`, `RoundTrip`, `WhiteSpace`, `Written` | values, their text, the round trip, and the text spelled out |
| `Writer`, `WriterMeaning`, `WriterHistory` | the writer object, and what it holds after any legal sequence of calls |
| `Document`, `Equality` | the document handler and the comparison |
| `Schema`, `SchemaValidator`, `SchemaProof`, `StreamingValidator`, `SchemaDraft` | satisfying a schema, the streaming validator as values and as an object, that they agree, and where the library differs from the draft |
| `Pointer`, `PointerParser`, `PointerGrammar`, `PointerResolve` | JSON Pointer: texts, the parser object, the grammar, resolving and creating |
| `Pool` | the memory pool |
| `Ring`, `PacketQueue`, `CacheIndex`, `CacheRuns`, `CacheCallers` | index arithmetic, the queue object, the slots of lidars, interleaved calls for slots, and which overlaps do harm |
| `Pipeline`, `PipelineProof`, `PipelineRuns`, `PipelineFrames` | the two threads as a state machine, its invariant, and the guarantees over all runs |

Each operation that changes state in place is a method of a class with the source's fields, proved against a specification function; the main theorems are lemmas about those functions.

Conventions. A text is a byte sequence with an implicit terminator: looking past the end gives NUL. A handler is its answer as a function of the events so far, so every handler, including one that refuses, is covered. A double is kept as the text of its literal; whether a literal exceeds the largest double, and whether a double lies within the bounds of a schema, are parameters. Machine integers are newtypes or explicit remainders where their width matters. Masks and shifts are written as arithmetic.

The pipeline is modelled as interleaved atomic steps under sequential consistency: slot write (in arbitrarily many partial steps), index publish, emptiness test, count read, signal, wait, visit, slot read (base time and points in two steps), index release. The timing conditions that make a frame due are left open, so a frame may be due at any moment; with synchronized clocks it holds one lidar, with the timer all of them. Several tests of emptiness in a row by the publishing thread are one step, since no other thread removes packets.

## What was found

- The two parsers differ on a text whose first character is `]`, `}`, `,` or `:`: one reports an invalid value, the other an empty document (`ParserEquivalence.ParsersAgree`).
- When a handler refuses a bracket, the recursive parser reports the refusal one character further than the table-driven one, since it has taken the bracket by then; only for a closing bracket after a trailing comma the two agree (`ParserEquivalence.RefusedBracket`, `ParserEquivalence.OffsetsAgreeExactly` for all texts and handlers, and `ParserEquivalence.BracketsAcceptedOffsetsAgree` for handlers that refuse no bracket).
- The overflow test of JSON Pointer misses wraps: `5000000000` becomes index 705032704 (`Pointer.WrapUnseen`; `Pointer.IndexExact` gives the exact condition).
- The comment on document comparison says that objects with duplicate names are never equal; the code says otherwise, and with duplicates the comparison need be neither reflexive nor symmetric (`Equality.DuplicatesBreakEquality`; `Equality.ReflexiveExactly` and `Equality.SymmetricExactly` say exactly when it is).
- The comparison takes -1 and 2^64-1 for equal (`Equality.IntegersAsWords`).
- A lone low surrogate escape is accepted and decoded to bytes that are not UTF-8 (`DecodedStrings.LoneLowIsAccepted`); a literal of well-formed text decodes to well-formed UTF-8 exactly when it has no such escape (`DecodedStrings.WellFormedExactly`).
- Two interleaved look-ups of one new lidar use up two slots (`CacheCallers.InterleavedLeak`; `CacheRuns.LeakExactly` gives the exact condition).
- ResetIndex finds its lidar and reads the slot before it takes the lock, so two overlapping resets of one lidar can free a slot that another lidar has got (`CacheCallers.StolenSlot`). GetIndex and ResetIndex read a slot without looking again, which maps a lidar that has gone meanwhile to slot 0 (`CacheCallers.RevivedByReset`, `CacheCallers.RevivedByGetIndex`). `CacheRuns.InjectiveThroughout` and `CacheRuns.ExactThroughout` give the exact conditions, and `CacheCallers.CallsApartInjective` one that callers can keep. The driver's only call of ResetIndex is commented out.
- The schema validator lets a required property be missing when its default is a nonempty string, takes an empty tuple of items for no tuple, never counts a name that occurs only in `required` as additional, and takes no whole number beyond 64 bits for an integer (`SchemaDraft.DefaultExempts`, `SchemaDraft.EmptyTupleAllows`, `SchemaDraft.RequiredNameAllows`, `SchemaDraft.TwentyDigitsAreNoInteger`; a lemma for each keyword says exactly when the two readings differ, and `SchemaDraft.DraftAgrees` that on other schemas and values the verdicts of the fragment are equal).
- A queue whose storage has been freed keeps its pointer (`PacketQueue.LidarDataQueue.DeInitQueue`).

## Model

| member | source | states |
|---|---|---|
| `Bytes.SkipSpace` | livox_ros_driver2/3rdparty/rapidjson/reader.h:290-296 | the cursor passes bytes 20, 0A, 0D and 09 only, and stops at the first other one |
| `LeadingSpace.SpaceInFrontIterative` | livox_ros_driver2/3rdparty/rapidjson/reader.h:2401-2433 | any run of the four blanks before a text only moves the outcome of the table-driven parser: same events, verdict and code, all positions further by the length of the run |
| `LeadingSpace.SpaceInFront` | livox_ros_driver2/3rdparty/rapidjson/reader.h:615-646 | the same run leaves the events, the verdict, the code and the consumed text of the recursive parser as they are |
| `Utf8.DecodeEncode` | livox_ros_driver2/3rdparty/rapidjson/encodings.h:108-211 | decoding undoes encoding for every scalar value, wherever the bytes stand |
| `Utf8.EncodeDecode` | livox_ros_driver2/3rdparty/rapidjson/encodings.h:108-211 | encoding undoes decoding for every accepted character |
| `Utf8.SurrogateIsRefused` | livox_ros_driver2/3rdparty/rapidjson/encodings.h:114-118 | an encoded surrogate is not accepted by the decoder |
| `Utf8.Decode` | livox_ros_driver2/3rdparty/rapidjson/encodings.h:147-211 | the table-driven decoder succeeds exactly on the characters of section 4 of RFC 3629, gives the code point of the grammar, and consumes a number of bytes that depends on the leading byte alone |
| `Utf8.Validate` | livox_ros_driver2/3rdparty/rapidjson/encodings.h:213-267 | the validator accepts exactly what the decoder accepts, takes as many bytes, and copies them |
| `Utf8.TailsMeaning` | livox_ros_driver2/3rdparty/rapidjson/encodings.h:269-298 | the range table with its masks is the RFC grammar: no overlong forms, no surrogates, nothing above U+10FFFF |
| `Strings.UnicodeEscapeRead` | livox_ros_driver2/3rdparty/rapidjson/writer.h:472-479 | a printed four-digit escape is read back as its number |
| `Strings.PairRead` | livox_ros_driver2/3rdparty/rapidjson/reader.h:1089-1106 | a printed surrogate pair is read back as the one code point it stands for |
| `Strings.UnicodeWritable` | livox_ros_driver2/3rdparty/rapidjson/writer.h:437-520 | every byte string, whatever its bytes, can be written to a UTF-8 target |
| `Strings.AsciiWritable` | livox_ros_driver2/3rdparty/rapidjson/writer.h:467-471 | a string can be written to the ASCII target exactly when it is well-formed UTF-8 |
| `Strings.UnescapeEscape` | livox_ros_driver2/3rdparty/rapidjson/writer.h:437-520 | reading a written string gives back its bytes, NUL and quotes included, for the UTF-8 and the ASCII target |
| `DecodedStrings.WellFormedExactly` | livox_ros_driver2/3rdparty/rapidjson/reader.h:1058-1129 | a literal of well-formed text decodes to a well-formed string exactly when no escape in it is the second half of a surrogate pair without a first half |
| `DecodedStrings.LoneLowIsAccepted` | livox_ros_driver2/3rdparty/rapidjson/reader.h:1089-1106 | the literal of a lone second half is accepted and delivered as bytes that are not UTF-8 |
| `DecodedStrings.DecodedAgrees` | livox_ros_driver2/3rdparty/rapidjson/reader.h:1072-1128 | the same from any position in a literal on, by whole characters of the raw text |
| `Strings.EscapeIsAscii` | livox_ros_driver2/3rdparty/rapidjson/writer.h:465-508 | what is written to the ASCII target is pure ASCII |
| `Numbers.SignificandEventIs` | livox_ros_driver2/3rdparty/rapidjson/reader.h:1852-1864 | the accumulators that did not overflow decide the type exactly as the ranges of the types do |
| `Dom.LiteralIsExact` | livox_ros_driver2/3rdparty/rapidjson/reader.h:1598-1701 | a literal without fraction and exponent is delivered with its exact value by the tightest type, and as a double exactly when its value is outside -2^63 to 2^64-1 |
| `Numbers.DecimalRead` | livox_ros_driver2/3rdparty/rapidjson/writer.h:367-400 | the printed digits of a number are read back as the number |
| `Numbers.NumberDecimalInt` | livox_ros_driver2/3rdparty/rapidjson/reader.h:1584-1869 | a printed 64-bit integer is parsed as one event with its value |
| `GrammarLeaves.GapSkipped` | livox_ros_driver2/3rdparty/rapidjson/reader.h:769-794 | where the grammar has a gap up to a character that begins no other, the reader skips exactly to its end |
| `GrammarLeaves.SkippedIsGap` | livox_ros_driver2/3rdparty/rapidjson/reader.h:769-794 | what the reader skips is a gap of the grammar: blanks, and comments where they are allowed |
| `GrammarLeaves.HexRead` | livox_ros_driver2/3rdparty/rapidjson/reader.h:966-988 | for every number and every spelling of its four digits in 0-9, a-f and A-F, in any mixture of cases, the reader finds the number |
| `GrammarLeaves.HexFound` | livox_ros_driver2/3rdparty/rapidjson/reader.h:966-988 | the reader finds a number only where four such digits stand |
| `Grammar.SpelledOut` | livox_ros_driver2/3rdparty/rapidjson/reader.h:973-979 | the digits of the grammar are the two strings 0123456789abcdef and 0123456789ABCDEF |
| `GrammarLeaves.ShortSpelled` | livox_ros_driver2/3rdparty/rapidjson/reader.h:1062-1080 | the two-character escapes are the eight pairs of the grammar, the solidus among them |
| `GrammarLeaves.CharsDecoded` | livox_ros_driver2/3rdparty/rapidjson/reader.h:1058-1129 | every string of the grammar, whatever its escapes and their spelling, is decoded to the bytes it stands for, up to its closing mark |
| `GrammarLeaves.DecodedChars` | livox_ros_driver2/3rdparty/rapidjson/reader.h:1058-1129 | what is decoded is a string of the grammar |
| `GrammarLeaves.FoldedIsCounting` | livox_ros_driver2/3rdparty/rapidjson/reader.h:1716-1752 | the fraction digits folded into the significand are as many as make 18 with those of the integer part, or 17 after the zeros when the integer part is zero |
| `GrammarLeaves.RefusedUnreadIsHuge` | livox_ros_driver2/3rdparty/rapidjson/reader.h:1789-1796 | a literal refused because of its exponent alone is zero or at least 10^309 |
| `GrammarLeaves.NumberRead` | livox_ros_driver2/3rdparty/rapidjson/reader.h:1584-1869 | every number of the grammar, each part taken as far as it goes, is delivered by the first type that holds its decimal value, or refused when it is too big |
| `GrammarErrors.GapRefused` | livox_ros_driver2/3rdparty/rapidjson/reader.h:769-794 | after a gap, a slash that begins no comment and a block comment that does not end are refused, at the character after the slash and at the end of the text |
| `GrammarErrors.RefusedGap` | livox_ros_driver2/3rdparty/rapidjson/reader.h:769-794 | skipping fails only there, and only when comments are allowed |
| `GrammarErrors.PieceBreaks` | livox_ros_driver2/3rdparty/rapidjson/reader.h:1071-1128 | one turn of the decoding loop fails exactly where a string breaks off, with the code for the reason: end of text, control byte, unknown escape, missing digits, or a first half without a second |
| `GrammarErrors.StringRefused` | livox_ros_driver2/3rdparty/rapidjson/reader.h:1058-1129 | a string that breaks off is refused at that place with that code |
| `GrammarErrors.RefusedBreaks` | livox_ros_driver2/3rdparty/rapidjson/reader.h:1058-1129 | only a string that breaks off is refused |
| `GrammarErrors.NumberRefused` | livox_ros_driver2/3rdparty/rapidjson/reader.h:1640-1798 | a number that lacks a digit is refused at that place, with the code for the part that lacks it |
| `GrammarErrors.WrongBreaks` | livox_ros_driver2/3rdparty/rapidjson/reader.h:1640-1798 | only such a number is refused for its form |
| `GrammarProof.TreeRead` | livox_ros_driver2/3rdparty/rapidjson/reader.h:1872-1896 | wherever the text of a tree of the grammar stands, the recursive parser reads it to its end and reports the events of the tree |
| `GrammarProof.TreeFound` | livox_ros_driver2/3rdparty/rapidjson/reader.h:1872-1896 | what the recursive parser reads is a tree of the grammar with those events |
| `GrammarProof.ParsesExactly` | livox_ros_driver2/3rdparty/rapidjson/reader.h:615-646 | for every text, handler and flags, the recursive parser succeeds at a position with a history exactly when the text up to there is of the grammar of RFC 8259, with the extensions the flags allow, and the history is the events of its tree, all of them accepted |
| `GrammarProof.IterativeParsesExactly` | livox_ros_driver2/3rdparty/rapidjson/reader.h:2401-2433 | the same for the table-driven parser |
| `Pushdown.TransitNested` | livox_ros_driver2/3rdparty/rapidjson/reader.h:2192-2350 | every transition keeps one stack frame for each container the events have left open, with the state of the container around it |
| `Pushdown.StackMatchesHistory` | livox_ros_driver2/3rdparty/rapidjson/reader.h:2401-2433 | over a whole run the stack is exactly one (return state, count) frame for each open container |
| `ParserEquivalence.ParsersAgree` | livox_ros_driver2/3rdparty/rapidjson/reader.h:615-646 | on every text, for every handler and every setting of the comment, trailing-comma and stop-when-done flags, both parsers deliver the same events, the same verdict, the same error code and the same end, and the offsets of errors are related exactly; the one exception, a text that begins with ] } , or :, is described exactly |
| `ParserEquivalence.OffsetsAgreeExactly` | livox_ros_driver2/3rdparty/rapidjson/reader.h:797-913 | both parsers report an error at the same offset exactly when it is not the refusal of a bracket that does not follow a trailing comma; such a refusal the recursive parser reports one further |
| `ParserEquivalence.RunRefused` | livox_ros_driver2/3rdparty/rapidjson/reader.h:2192-2350 | the code for a refusal is reported only when the handler refused the last event |
| `ParserEquivalence.BracketsAcceptedOffsetsAgree` | livox_ros_driver2/3rdparty/rapidjson/reader.h:797-913 | with a handler that accepts every history ending in a bracket event, both parsers report every error at the same offset, after the same events |
| `ParserEquivalence.RefusedBracket` | livox_ros_driver2/3rdparty/rapidjson/reader.h:2203-2228 | a handler that refuses everything stops the two parsers at offsets 1 and 0 of the text [ |
| `ParserEquivalence.OnlyAfterComma` | livox_ros_driver2/3rdparty/rapidjson/reader.h:2262-2267 | the states that stand for a trailing comma are entered only by a comma |
| `Reader.Reader.SkipWhitespaceAndComments` | livox_ros_driver2/3rdparty/rapidjson/reader.h:769-794 | the method ends where the specification says, or with its error |
| `Reader.Reader.SkipComment` | livox_ros_driver2/3rdparty/rapidjson/reader.h:774-789 | block and line comments as the loops take them character by character |
| `Reader.Reader.ParseWord` | livox_ros_driver2/3rdparty/rapidjson/reader.h:916-953 | null, true and false are consumed to the first character that differs, and reported once complete |
| `Reader.Reader.ParseHex4` | livox_ros_driver2/3rdparty/rapidjson/reader.h:966-988 | the loop over the four digits computes the specified number or sets the error |
| `Reader.Reader.ParseLowSurrogate` | livox_ros_driver2/3rdparty/rapidjson/reader.h:1093-1105 | the second half of a pair is demanded and combined as specified |
| `Reader.Reader.ParseEscape` | livox_ros_driver2/3rdparty/rapidjson/reader.h:1079-1108 | an escape is decoded as specified, and writing it never passes the read cursor |
| `Reader.Reader.ParseStringToStream` | livox_ros_driver2/3rdparty/rapidjson/reader.h:1058-1129 | the decoding loop produces the specified bytes; in place, the write cursor stays behind the read cursor |
| `Reader.Reader.DecodeInPlace` | livox_ros_driver2/3rdparty/rapidjson/reader.h:1029-1038 | the handler gets a slice of the source buffer that holds the decoded bytes and a terminator |
| `Reader.Reader.DecodeCopy` | livox_ros_driver2/3rdparty/rapidjson/reader.h:1039-1048 | the handler gets a copy of the same bytes |
| `Reader.Reader.ParseString` | livox_ros_driver2/3rdparty/rapidjson/reader.h:1021-1051 | in place or copying, the same event is delivered, and every string delivered before is still intact |
| `Reader.ResolvedKept` | livox_ros_driver2/3rdparty/rapidjson/reader.h:1021-1051 | writing at or after the end of the delivered strings leaves all of them as they were |
| `Reader.Reader.ScanInt32` | livox_ros_driver2/3rdparty/rapidjson/reader.h:1609-1636 | the 32-bit loop holds the exact value and stops before the first digit that would not fit |
| `Reader.Reader.ScanInt64` | livox_ros_driver2/3rdparty/rapidjson/reader.h:1668-1701 | the 64-bit loop goes on exactly and stops before the first digit that would not fit |
| `Reader.Reader.ScanNegativeExponent` | livox_ros_driver2/3rdparty/rapidjson/reader.h:1770-1788 | the exponent digits past the limit are taken and not counted, so the exponent stays a 32-bit int |
| `Reader.Reader.ScanPositiveExponent` | livox_ros_driver2/3rdparty/rapidjson/reader.h:1789-1796 | a positive exponent above 308 plus the folded digits ends parsing as too big |
| `Reader.Reader.FinishDouble` | livox_ros_driver2/3rdparty/rapidjson/reader.h:1834-1849 | exponent and fraction shift add up within 32 bits for texts below the stated length |
| `Reader.Reader.ParseNumber` | livox_ros_driver2/3rdparty/rapidjson/reader.h:1584-1869 | all loops on machine integers together deliver the specified event, and no integer operation leaves its type |
| `Reader.Reader.ParseArray` | livox_ros_driver2/3rdparty/rapidjson/reader.h:868-913 | the recursive array parser does what the specification says, from any position and history |
| `Reader.Reader.ParseObject` | livox_ros_driver2/3rdparty/rapidjson/reader.h:797-866 | the recursive object parser does what the specification says, from any position and history |
| `Reader.Reader.ParseValue` | livox_ros_driver2/3rdparty/rapidjson/reader.h:1872-1896 | the dispatch on the first character |
| `Reader.Reader.Parse` | livox_ros_driver2/3rdparty/rapidjson/reader.h:615-646 | the recursive parser over a mutable buffer, in place or copying, gives the specified outcome of the original text; all delivered strings are intact at the end |
| `Reader.Reader.TransitOpen` | livox_ros_driver2/3rdparty/rapidjson/reader.h:2203-2230 | opening a container pushes one frame before the handler is asked |
| `Reader.Reader.TransitClose` | livox_ros_driver2/3rdparty/rapidjson/reader.h:2269-2325 | closing a container pops its frame, delivers its count and restores the return state |
| `Reader.Reader.Transit` | livox_ros_driver2/3rdparty/rapidjson/reader.h:2192-2350 | one transition of the object is one transition of the table-driven machine |
| `Reader.Reader.HandleError` | livox_ros_driver2/3rdparty/rapidjson/reader.h:2353-2388 | the error of a state, unless an error is already known |
| `Reader.Reader.IterativeParse` | livox_ros_driver2/3rdparty/rapidjson/reader.h:2401-2433 | the table-driven parser over the same mutable buffer gives the specified outcome |
| `Dom.ConstructorsAgree` | livox_ros_driver2/3rdparty/rapidjson/document.h:858-899 | the four integer constructors give one and the same word and type flags to one value |
| `Dom.NumberEventIs` | livox_ros_driver2/3rdparty/rapidjson/document.h:2318-2329 | the event of a number carries the number, in the first of int, unsigned, int64 and uint64 that holds it |
| `Dom.RereadEventIs` | livox_ros_driver2/3rdparty/rapidjson/reader.h:1852-1864 | the event a reader gives to a printed number carries the number |
| `Dom.BuildValue` | livox_ros_driver2/3rdparty/rapidjson/document.h:2926-3000 | the events of a value, as the value generates them or as a reader gives them, build exactly that value on top of the stack |
| `ReadBack.ReadValue` | livox_ros_driver2/3rdparty/rapidjson/reader.h:1872-1896 | parsing the printed text of a value, in the middle of any text that goes on properly, gives the events of the value and stops at its end |
| `ReadBack.ReadText` | livox_ros_driver2/3rdparty/rapidjson/reader.h:615-646 | parsing a printed value gives its events and consumes the text |
| `RoundTrip.PrintParseBuild` | livox_ros_driver2/3rdparty/rapidjson/document.h:2286-2331 | print, parse, rebuild is the identity on values without doubles: structure, member order, string bytes, words and type flags, with one value left on the stack; for both targets and every format |
| `RoundTrip.PrintIterativeParseBuild` | livox_ros_driver2/3rdparty/rapidjson/reader.h:2401-2433 | the same round trip through the table-driven parser |
| `RoundTrip.AcceptBuilds` | livox_ros_driver2/3rdparty/rapidjson/document.h:2286-2331 | handing a value to a document handler copies the value |
| `RoundTrip.PrettyKeepsMeaning` | livox_ros_driver2/3rdparty/rapidjson/prettywriter.h:263-303 | texts of one value in any two formats and targets parse to the same events |
| `WhiteSpace.PrettyIsSpacedCompact` | livox_ros_driver2/3rdparty/rapidjson/prettywriter.h:263-311 | a formatted text without the blanks outside strings is the compact text |
| `WhiteSpace.PrintIsAscii` | livox_ros_driver2/3rdparty/rapidjson/writer.h:437-520 | the whole text of a value written to the ASCII target is ASCII, in every format |
| `Written.ByteWritten` | livox_ros_driver2/3rdparty/rapidjson/writer.h:441-456 | which bytes are written by a short escape, which as u-escapes with digits in upper case, and which as they are |
| `Written.CodePointWritten` | livox_ros_driver2/3rdparty/rapidjson/writer.h:467-496 | a code point of the ASCII target is one u-escape, or two for the halves above FFFF, with digits in upper case |
| `Written.AsciiWritten` | livox_ros_driver2/3rdparty/rapidjson/writer.h:463-508 | a string of any code points is written to an ASCII target code point by code point |
| `Written.UnicodeWritten` | livox_ros_driver2/3rdparty/rapidjson/writer.h:463-520 | any string is written to a Unicode target byte by byte |
| `Written.ArrayWritten` | livox_ros_driver2/3rdparty/rapidjson/prettywriter.h:263-311 | the text of an array is its elements joined by commas: on one line without blanks when compact, with a blank after each comma in single-line arrays, and otherwise on lines indented by their depth |
| `Written.ObjectWritten` | livox_ros_driver2/3rdparty/rapidjson/prettywriter.h:263-311 | the text of an object is its members joined by commas, each a name, a colon and a value, on lines indented by their depth when pretty |
| `Written.FormatsAre` | livox_ros_driver2/3rdparty/rapidjson/prettywriter.h:93-99 | the indentation is one of space, tab, line feed and carriage return |
| `Writer.Writer.Reset` | livox_ros_driver2/3rdparty/rapidjson/writer.h:155-159 | a reset writer is a new writer |
| `Writer.Writer.Prefix` | livox_ros_driver2/3rdparty/rapidjson/writer.h:560-579 | the separator a value needs in its container, in compact and in pretty format, and the count of the level |
| `Writer.Writer.PrettyGap` | livox_ros_driver2/3rdparty/rapidjson/prettywriter.h:263-303 | line breaks, indentation and the single-line array option |
| `Writer.Writer.WriteString` | livox_ros_driver2/3rdparty/rapidjson/writer.h:437-520 | the literal is written unit by unit; it ends early exactly when a character cannot be decoded |
| `Writer.Writer.String` | livox_ros_driver2/3rdparty/rapidjson/writer.h:242-247 | a string adds separator and literal to the text, and counts as one value |
| `Writer.Writer.Key` | livox_ros_driver2/3rdparty/rapidjson/writer.h:261-263 | a name is written like a string |
| `Writer.Writer.Int64` | livox_ros_driver2/3rdparty/rapidjson/writer.h:216-219 | an integer adds separator and decimal text |
| `Writer.Writer.StartObject` | livox_ros_driver2/3rdparty/rapidjson/writer.h:255-259 | an open bracket and a new level |
| `Writer.Writer.EndObject` | livox_ros_driver2/3rdparty/rapidjson/writer.h:271-282 | a closing bracket, its line break when pretty, and the level gone |
| `Writer.Writer.EndArray` | livox_ros_driver2/3rdparty/rapidjson/writer.h:290-296 | the same for arrays |
| `WriterMeaning.AcceptPrints` | livox_ros_driver2/3rdparty/rapidjson/document.h:2286-2331 | a writer that a value hands its events to holds exactly the text of the value and knows that it is complete |
| `WriterMeaning.WritesExactly` | livox_ros_driver2/3rdparty/rapidjson/document.h:2286-2331 | a new writer takes all the events of a value exactly when the value can be printed: without doubles, with strings that the target can carry |
| `WriterHistory.HistoryHolds` | livox_ros_driver2/3rdparty/rapidjson/writer.h:200-296 | over every legal sequence of calls, complete or not, the text is the text of what the events describe so far |
| `WriterHistory.CompleteTextIsValue` | livox_ros_driver2/3rdparty/rapidjson/writer.h:161-165 | the writer is complete exactly when the calls describe one whole value, and then its text is the text of that value |
| `WriterHistory.LegalInEveryFormat` | livox_ros_driver2/3rdparty/rapidjson/prettywriter.h:114-234 | the order of calls that the assertions allow does not depend on the format |
| `WriterHistory.PrettyHistory` | livox_ros_driver2/3rdparty/rapidjson/prettywriter.h:163-311 | for every legal and complete sequence of calls the pretty text is the compact text with blanks put in outside strings, and both parse to the same events |
| `Document.Document.EndObject` | livox_ros_driver2/3rdparty/rapidjson/document.h:2982-2988 | names and values above the object leave the stack and become its members |
| `Document.Document.EndArray` | livox_ros_driver2/3rdparty/rapidjson/document.h:2995-3000 | the elements above the array leave the stack and become its elements |
| `Document.Document.Finish` | livox_ros_driver2/3rdparty/rapidjson/document.h:2738-2750 | the one value left becomes the document |
| `Document.ParseLeavesOneValue` | livox_ros_driver2/3rdparty/rapidjson/document.h:2738-2750 | whatever the text, the handler never pops more than there is; after a successful parse by either parser exactly one value is left |
| `Equality.EqualIsSameMeaning` | livox_ros_driver2/3rdparty/rapidjson/document.h:1110-1147 | two values without doubles whose objects have unique names compare equal exactly when they mean the same, an object being a map from names and a number a 64-bit word |
| `Equality.SameNames` | livox_ros_driver2/3rdparty/rapidjson/document.h:1518-1527 | as many members on both sides, all of whose names are found, make the same names: one direction of look-ups is enough |
| `Equality.EqualIsEquivalence` | livox_ros_driver2/3rdparty/rapidjson/document.h:1110-1147 | comparing is reflexive, symmetric and transitive on such values |
| `Equality.OrderDoesNotMatter` | livox_ros_driver2/3rdparty/rapidjson/document.h:1110-1147 | the order of members does not matter |
| `Equality.IntegersAsWords` | livox_ros_driver2/3rdparty/rapidjson/document.h:1136-1142 | integers are equal exactly modulo 2^64: -1 equals 2^64-1 |
| `Equality.DuplicatesBreakEquality` | livox_ros_driver2/3rdparty/rapidjson/document.h:1104-1128 | with a name twice comparing is neither reflexive nor symmetric, nor always false as the comment says |
| `Equality.ReflexiveExactly` | livox_ros_driver2/3rdparty/rapidjson/document.h:1110-1147 | over all values without doubles, a value equals itself exactly when at every level each member whose name occurred before equals the first one of that name |
| `Equality.SymmetricExactly` | livox_ros_driver2/3rdparty/rapidjson/document.h:1110-1147 | over all values without doubles, a comparison that holds can be turned round exactly when at every matched level each name of the second occurs in the first, the first members of a name can be turned round, and later members of a name in the second equal the first one |
| `Equality.EqualIsTransitive` | livox_ros_driver2/3rdparty/rapidjson/document.h:1110-1147 | comparing is transitive over all values without doubles, whatever the names |
| `SchemaProof.ParallelLower` | livox_ros_driver2/3rdparty/rapidjson/schema.h:2254-2269 | a parallel validator belongs to a lower schema, so passing an event on ends |
| `SchemaProof.SlotsAgree` | livox_ros_driver2/3rdparty/rapidjson/schema.h:814-852 | the slots of allOf, anyOf, oneOf and not are consecutive parts of the verdicts |
| `SchemaProof.CombinedAgrees` | livox_ros_driver2/3rdparty/rapidjson/schema.h:814-852 | when every parallel validator is right about its schema, the verdict over the slots is the combined condition |
| `SchemaProof.RequiredAgrees` | livox_ros_driver2/3rdparty/rapidjson/schema.h:1019-1027 | a required name is found missing at the end of an object exactly when no member had it |
| `SchemaProof.MemberRun` | livox_ros_driver2/3rdparty/rapidjson/schema.h:962-1016 | a member name picks the schema of the value, marks the property and refuses what is not allowed |
| `SchemaProof.ElementRun` | livox_ros_driver2/3rdparty/rapidjson/schema.h:744-767 | an element gets the schema of its place, or is refused |
| `SchemaProof.ValueRun` | livox_ros_driver2/3rdparty/rapidjson/schema.h:2247-2342 | at any depth and with any contexts around, the validator follows a value to its end and accepts it exactly when it satisfies the schema |
| `SchemaProof.StreamingAgrees` | livox_ros_driver2/3rdparty/rapidjson/schema.h:2247-2342 | the streaming validator accepts the events of a value exactly when the value satisfies the schema by the recursive definition, and its stack is empty again |
| `SchemaDraft.DraftAgrees` | livox_ros_driver2/3rdparty/rapidjson/schema.h:2247-2342 | the verdict is that of the draft on every schema that has, at every level, no required property with a nonempty string as default, no empty tuple that says something about further elements, no name only in `required` beside something said about additional properties, and, unless every whole number of the value fits 64 bits, no type that allows integers only |
| `SchemaDraft.RequiredExactly` | livox_ros_driver2/3rdparty/rapidjson/schema.h:1019-1027 | the verdict on required names differs from section 5.4.3 of the draft exactly when some are missing and all the missing ones have a nonempty string as default |
| `SchemaDraft.ItemsExactly` | livox_ros_driver2/3rdparty/rapidjson/schema.h:745-762 | the schema of an element differs from section 5.3.1 of the draft exactly for an empty tuple that says something about further elements |
| `SchemaDraft.MembersExactly` | livox_ros_driver2/3rdparty/rapidjson/schema.h:976-1008 | the schema of a member differs from section 5.4.4 of the draft exactly for a name only in `required`, when something is said about additional properties |
| `SchemaDraft.LocalExactly` | livox_ros_driver2/3rdparty/rapidjson/schema.h:893-940 | the verdict on a value by itself (type, bounds, and the inclusive limits on code points, elements and members) differs from sections 5.1 to 5.5 of the draft, written out, exactly for a whole number kept as a double under a type that allows integers only |
| `SchemaDraft.CodePointsAre` | livox_ros_driver2/3rdparty/rapidjson/schema.h:915-930 | the count of the validator is the number of characters of the string, told by the bytes that begin one, and fails exactly on a string that is not well-formed |
| `SchemaDraft.TypelessAllows` | livox_ros_driver2/3rdparty/rapidjson/schema.h:1682-1686 | the schema that stands for what nothing is said about is satisfied by every value whose parts can be counted in 32 bits, in the library and in the draft |
| `SchemaDraft.WholeDoubleExactly` | livox_ros_driver2/3rdparty/rapidjson/reader.h:1598-1701 | a whole number is kept as a double exactly when it is outside -2^63 to 2^64-1 |
| `SchemaDraft.DefaultExempts` | livox_ros_driver2/3rdparty/rapidjson/schema.h:1021-1024 | an empty object satisfies a schema that requires a name whose default is a string of one character |
| `SchemaDraft.EmptyTupleAllows` | livox_ros_driver2/3rdparty/rapidjson/schema.h:668-670 | an array of one element satisfies a schema of an empty tuple without additional items |
| `SchemaDraft.RequiredNameAllows` | livox_ros_driver2/3rdparty/rapidjson/schema.h:552-573 | an object with one member satisfies a schema that only requires that name and allows no additional properties |
| `SchemaDraft.TwentyDigitsAreNoInteger` | livox_ros_driver2/3rdparty/rapidjson/schema.h:893-897 | the literal 20000000000000000000 is read as a double and refused by a schema for integers |
| `StreamingValidator.AssignSlots` | livox_ros_driver2/3rdparty/rapidjson/schema.h:520-534 | the slots of the four groups are disjoint and fill the range below the count |
| `StreamingValidator.CreateParallelValidator` | livox_ros_driver2/3rdparty/rapidjson/schema.h:1301-1339 | every slot gets a fresh validator for its own schema |
| `StreamingValidator.StreamValidator.BeginValue` | livox_ros_driver2/3rdparty/rapidjson/schema.h:2430-2464 | the first value gets the root schema, any other the schema of its place |
| `StreamingValidator.StreamValidator.HandleParallel` | livox_ros_driver2/3rdparty/rapidjson/schema.h:2254-2270 | an event goes to every parallel validator of every open value |
| `StreamingValidator.StreamValidator.EndValue` | livox_ros_driver2/3rdparty/rapidjson/schema.h:2466-2512 | the verdict over the slots, and the context popped |
| `StreamingValidator.StreamValidator.CheckSlots` | livox_ros_driver2/3rdparty/rapidjson/schema.h:814-852 | the loops over the slots decide the combined condition |
| `StreamingValidator.StreamValidator.CheckRequired` | livox_ros_driver2/3rdparty/rapidjson/schema.h:1021-1024 | the loop over the properties finds a missing one exactly when there is one |
| `StreamingValidator.StreamValidator.HandleValue` | livox_ros_driver2/3rdparty/rapidjson/schema.h:2274-2277 | begin, pass on, end: one event of the object is one step of the specification |
| `StreamingValidator.StreamValidator.Key` | livox_ros_driver2/3rdparty/rapidjson/schema.h:2313-2320 | a member name |
| `StreamingValidator.StreamValidator.EndObject` | livox_ros_driver2/3rdparty/rapidjson/schema.h:2322-2328 | the end of an object |
| `StreamingValidator.StreamValidator.EndArray` | livox_ros_driver2/3rdparty/rapidjson/schema.h:2336-2342 | the end of an array |
| `StreamingValidator.Accept` | livox_ros_driver2/3rdparty/rapidjson/document.h:2286-2331 | a value hands its events over and stops at the first that is refused |
| `StreamingValidator.Validate` | livox_ros_driver2/3rdparty/rapidjson/schema.h:2247-2512 | a fresh validator answers whether the value satisfies the schema |
| `Pointer.IndexExact` | livox_ros_driver2/3rdparty/rapidjson/pointer.h:1113-1126 | a numeric name gets its decimal value as index, or the invalid index from 2^32-1 on, exactly when the value fits 32 bits, or some digit makes the wrapped number smaller, or what is left is the invalid index; in every case the index is the value modulo 2^32, or the invalid one after a drop |
| `Pointer.SmallNeverDrops` | livox_ros_driver2/3rdparty/rapidjson/pointer.h:1113-1126 | below 2^32 no step of the conversion is mistaken for an overflow |
| `Pointer.WrapUnseen` | livox_ros_driver2/3rdparty/rapidjson/pointer.h:1117-1122 | 5000000000 is taken for index 705032704 |
| `Pointer.PrintableIs` | livox_ros_driver2/3rdparty/rapidjson/pointer.h:1150-1179 | every name has a string form, and a name has a URI form exactly when it is well-formed UTF-8 |
| `Pointer.NameRead` | livox_ros_driver2/3rdparty/rapidjson/pointer.h:1050-1104 | a printed name is read back as it was, up to the next slash |
| `Pointer.ParseStringify` | livox_ros_driver2/3rdparty/rapidjson/pointer.h:1013-1179 | reading undoes printing: all names in the string form, all well-formed names in the URI form (sections 3 to 6 of RFC 6901) |
| `PointerGrammar.ParsesExactly` | livox_ros_driver2/3rdparty/rapidjson/pointer.h:1013-1142 | a text is read exactly when it is of the grammar of section 3 of RFC 6901, as a URI fragment when it begins with a number sign, and then as the names its parts spell: ~0 for a tilde, ~1 for a solidus, percent signs with digits in either case for the bytes of a character |
| `PointerGrammar.RefusesExactly` | livox_ros_driver2/3rdparty/rapidjson/pointer.h:1013-1142 | any other text is refused where it first leaves the grammar, with the code for the reason |
| `PointerGrammar.NumericIs` | livox_ros_driver2/3rdparty/rapidjson/pointer.h:1106-1113 | an index is a zero alone, or digits that do not begin with zero |
| `PointerGrammar.UnitPrinted` | livox_ros_driver2/3rdparty/rapidjson/pointer.h:1159-1176 | what is printed for a character of a name, in bytes: the two escapes, unreserved characters as they are, others percent-encoded in upper case |
| `PointerGrammar.ReservedIs` | livox_ros_driver2/3rdparty/rapidjson/pointer.h:996-1000 | the characters that need no percent encoding are letters, digits, hyphen, full stop, low line and tilde |
| `PointerParser.ToIndex` | livox_ros_driver2/3rdparty/rapidjson/pointer.h:1113-1126 | the conversion loop on 32-bit words computes the specified index |
| `PointerParser.PointerParser.DecodePercent` | livox_ros_driver2/3rdparty/rapidjson/pointer.h:1055-1072 | a percent-encoded character is decoded and validated into the buffer after the name |
| `PointerParser.PointerParser.ReadName` | livox_ros_driver2/3rdparty/rapidjson/pointer.h:1050-1104 | the name in the buffer is the specified one, and it lags behind the reading |
| `PointerParser.PointerParser.ReadToken` | livox_ros_driver2/3rdparty/rapidjson/pointer.h:1043-1128 | one token: its slash, its name with the terminator, its index |
| `PointerParser.PointerParser.Parse` | livox_ros_driver2/3rdparty/rapidjson/pointer.h:1013-1142 | on every input, error paths included, the outcome is the specified one and all writes stay inside a name buffer as long as the source |
| `PointerParser.Stringify` | livox_ros_driver2/3rdparty/rapidjson/pointer.h:1150-1179 | the loops print the specified text, or refuse a name that has no URI form |
| `PointerResolve.FindMember` | livox_ros_driver2/3rdparty/rapidjson/document.h:1518-1527 | the first member of a name |
| `PointerResolve.GetExactly` | livox_ros_driver2/3rdparty/rapidjson/pointer.h:622-649 | a pointer resolves to a value exactly when its tokens lead to it place by place: an element by its index, or the first member of a name |
| `PointerResolve.UnresolvedExactly` | livox_ros_driver2/3rdparty/rapidjson/pointer.h:622-649 | the reported index is the first token that does not resolve: the tokens before it resolve, and with it they do not |
| `PointerResolve.CreateFromNull` | livox_ros_driver2/3rdparty/rapidjson/pointer.h:539-585 | from null on, creating ends in the new null value |
| `PointerResolve.CreateAgainstGet` | livox_ros_driver2/3rdparty/rapidjson/pointer.h:539-585 | creating says that everything was there exactly when the pointer resolved before, and then changes nothing; otherwise the pointer resolves to the new null value afterwards, unless a dash met an array, and then it does not resolve |
| `PointerResolve.CreatedMember` | livox_ros_driver2/3rdparty/rapidjson/pointer.h:551-578 | a name token makes an object of anything but an array or object, appends a new member behind the others, or goes on in the first member of the name and leaves the others as they are |
| `PointerResolve.CreatedElement` | livox_ros_driver2/3rdparty/rapidjson/pointer.h:545-565 | an index token, or a dash on an array, gives an array with exactly as many elements as the index needs: the old ones unchanged, the added ones null, and the child at the index |
| `PointerResolve.CreatedOverArray` | livox_ros_driver2/3rdparty/rapidjson/pointer.h:551-552 | a name token on an array replaces it by an object of one member |
| `PointerResolve.CreateElsewhere` | livox_ros_driver2/3rdparty/rapidjson/pointer.h:539-585 | what another pointer finds that parts from the path before its first unresolved token is unchanged |
| `Pool.CutOff` | livox_ros_driver2/3rdparty/rapidjson/allocators.h:216-219 | a block cut off the head chunk is new, aligned, inside the chunk, and apart from every live block |
| `Pool.Extend` | livox_ros_driver2/3rdparty/rapidjson/allocators.h:234-245 | extending the last block in place reaches no other live block |
| `Pool.SizeWithinCapacity` | livox_ros_driver2/3rdparty/rapidjson/allocators.h:191-205 | never is more handed out than there is |
| `Pool.NoSumWraps` | livox_ros_driver2/3rdparty/rapidjson/allocators.h:208-220 | below half the address space no 64-bit sum of the allocator wraps |
| `Pool.BlocksApart` | livox_ros_driver2/3rdparty/rapidjson/allocators.h:208-253 | live blocks are 8-aligned, in memory, and share no byte |
| `Pool.MemoryPoolAllocator.Malloc` | livox_ros_driver2/3rdparty/rapidjson/allocators.h:208-220 | a new aligned block that no live block overlaps, or null exactly when nothing is asked for or there is neither room nor a new chunk; it is cut off the head, or off a new chunk only when the head has no room, and the whole chunk list is stated |
| `Pool.MemoryPoolAllocator.AddChunk` | livox_ros_driver2/3rdparty/rapidjson/allocators.h:268-281 | the new chunk becomes the head |
| `Pool.MemoryPoolAllocator.Realloc` | livox_ros_driver2/3rdparty/rapidjson/allocators.h:223-253 | the old contents are kept, in place or moved; exactly when the block stays; no byte outside the returned block changes; what becomes of the chunk list in each case |
| `Pool.MemoryPoolAllocator.Clear` | livox_ros_driver2/3rdparty/rapidjson/allocators.h:178-186 | only the user's buffer is left, empty |
| `Pool.MemoryPoolAllocator.Capacity` | livox_ros_driver2/3rdparty/rapidjson/allocators.h:191-196 | the loop sums the capacities |
| `Pool.MemoryPoolAllocator.Size` | livox_ros_driver2/3rdparty/rapidjson/allocators.h:201-205 | the loop sums the sizes |
| `Ring.IsPowerOf2Meaning` | livox_ros_driver2/src/comm/ldq.h:35-37 | the bit test finds exactly the powers of two |
| `Ring.RoundupPowerOf2` | livox_ros_driver2/src/comm/ldq.h:39-49 | the least power of two that is no smaller, at most 2^31 |
| `Ring.AndMask` | livox_ros_driver2/src/comm/ldq.cpp:97-97 | masking with a power of two less one takes the remainder |
| `Ring.WrapKeepsSlot` | livox_ros_driver2/src/comm/ldq.cpp:137-137 | the size divides 2^32, so the wrap of an index does not move its slot |
| `Ring.WritingIsUnseen` | livox_ros_driver2/src/comm/ldq.cpp:137-144 | writing the free slot changes nothing a reader may see |
| `Ring.PublishingAppends` | livox_ros_driver2/src/comm/ldq.cpp:146-146 | publishing the write index appends the packet in the slot, across any wrap-around |
| `Ring.ReleasingDropsOldest` | livox_ros_driver2/src/comm/ldq.cpp:97-108 | the packet read is the oldest, and releasing its slot leaves the others in order |
| `PacketQueue.LidarDataQueue.InitQueue` | livox_ros_driver2/src/comm/ldq.cpp:33-61 | an empty queue of the least sufficient power of two |
| `PacketQueue.LidarDataQueue.DeInitQueue` | livox_ros_driver2/src/comm/ldq.cpp:63-79 | the indices and the size are zero, the pointer stays, and the queue is not ready for use |
| `PacketQueue.LidarDataQueue.ResetQueue` | livox_ros_driver2/src/comm/ldq.cpp:81-84 | the queue is empty |
| `PacketQueue.LidarDataQueue.QueueStatus` | livox_ros_driver2/src/comm/ldq.cpp:120-134 | used, unused, full and empty, computed on wrapping indices, answer for the contents |
| `PacketQueue.LidarDataQueue.QueuePrePop` | livox_ros_driver2/src/comm/ldq.cpp:86-105 | the oldest packet is copied, or the queue is empty |
| `PacketQueue.LidarDataQueue.QueuePop` | livox_ros_driver2/src/comm/ldq.cpp:111-118 | the oldest packet is taken, the others stay in order |
| `PacketQueue.LidarDataQueue.QueuePushAny` | livox_ros_driver2/src/comm/ldq.cpp:136-148 | the packet stands behind the others |
| `PacketQueue.PushLidarData` | livox_ros_driver2/src/lds.cpp:170-196 | a packet is stored exactly when there is room, and the semaphore is raised exactly when its count is not positive |
| `CacheIndex.KeysDiffer` | livox_ros_driver2/src/comm/cache_index.cpp:64-72 | different handles have different keys |
| `CacheIndex.CacheIndex.GetFreeIndex` | livox_ros_driver2/src/comm/cache_index.cpp:35-62 | a known lidar keeps its slot, a new one gets the first free one, and -1 means unknown type or no slot |
| `CacheIndex.CacheIndex.GetIndex` | livox_ros_driver2/src/comm/cache_index.cpp:74-88 | the slot of a known lidar |
| `CacheIndex.CacheIndex.ResetIndex` | livox_ros_driver2/src/comm/cache_index.cpp:105-119 | the lidar loses its slot, and the slot is free |
| `CacheIndex.CacheIndex.DifferentSlots` | livox_ros_driver2/src/comm/cache_index.cpp:74-88 | two lidars that have slots have different slots |
| `CacheRuns.GetFreeIndexIsItsSections` | livox_ros_driver2/src/comm/cache_index.cpp:35-62 | a call of GetFreeIndex that nothing interrupts maps a new lidar to the first free slot, and changes nothing for a known one or when all slots are in use |
| `CacheRuns.ResetIsItsSections` | livox_ros_driver2/src/comm/cache_index.cpp:112-117 | a reset that nothing interrupts is its unlocked find, its unlocked read of the slot and its locked erase: the lidar is unmapped and its slot is free |
| `CacheRuns.GetIndexChangesNothing` | livox_ros_driver2/src/comm/cache_index.cpp:81-85 | a call of GetIndex that nothing interrupts changes nothing |
| `CacheRuns.InjectiveThroughout` | livox_ros_driver2/src/comm/cache_index.cpp:35-119 | however the parts of calls of GetFreeIndex, GetIndex, LvxGetIndex and ResetIndex interleave, at all times no two lidars share a slot and mapped slots are in use, exactly when no erase frees a slot that another lidar has by then, and no slot is read for a lidar unmapped since it was found while slot 0 is free or another lidar's |
| `CacheRuns.ExactThroughout` | livox_ros_driver2/src/comm/cache_index.cpp:35-119 | the used slots are at all times exactly the mapped ones, each mapped once, exactly when no part frees the slot of another lidar, takes a second slot for a lidar, unmaps a lidar from a slot it does not free, or reads the slot of a lidar unmapped since it was found |
| `CacheRuns.WholeInjective` | livox_ros_driver2/src/comm/cache_index.cpp:35-119 | no two lidars ever share a slot, whatever the interleaving, when no reset is interrupted and none unmaps a lidar that a call of GetIndex has just found |
| `CacheCallers.NoResetsInjective` | livox_ros_driver2/src/comm/cache_index.cpp:35-103 | without resets, no two lidars ever share a slot, however the parts of calls of GetFreeIndex, GetIndex and LvxGetIndex interleave |
| `CacheRuns.LeakExactly` | livox_ros_driver2/src/comm/cache_index.cpp:35-62 | when no reset is interrupted and none unmaps a lidar that a call of GetIndex has just found, the used slots end up exactly the mapped ones exactly when no call took a slot for a lidar that had got one since the call looked it up |
| `CacheCallers.LookUpsApartLeakNothing` | livox_ros_driver2/src/comm/cache_index.cpp:35-62 | no slot leaks when calls of GetFreeIndex for one new lidar do not overlap |
| `CacheCallers.CallsApartInjective` | livox_ros_driver2/src/comm/cache_index.cpp:74-119 | no two lidars ever share a slot while no call of ResetIndex overlaps a call of GetIndex, LvxGetIndex or ResetIndex for its lidar |
| `CacheCallers.InterleavedLeak` | livox_ros_driver2/src/comm/cache_index.cpp:35-62 | two interleaved calls for one new lidar use up two slots, one of which is never given back |
| `CacheCallers.StolenSlot` | livox_ros_driver2/src/comm/cache_index.cpp:112-117 | two overlapping resets of one lidar let two other lidars share a slot |
| `CacheCallers.RevivedByReset` | livox_ros_driver2/src/comm/cache_index.cpp:112-113 | two overlapping resets of a lidar with slot 1 map it to slot 0, which is another lidar's |
| `CacheCallers.RevivedThenFreed` | livox_ros_driver2/src/comm/cache_index.cpp:112-117 | the same run goes on to free slot 0 and to give it to a third lidar as well |
| `CacheCallers.RevivedByGetIndex` | livox_ros_driver2/src/comm/cache_index.cpp:81-85 | one reset of a lidar with slot 1 during a call of GetIndex leaves it mapped to slot 0, which is another lidar's |
| `PipelineProof.TakePointsKeeps` | livox_ros_driver2/src/comm/pub_handler.cpp:178-222 | moving the gathered points into a frame loses none and stamps the frame with the time of the first |
| `PipelineProof.DeliverKeeps` | livox_ros_driver2/src/lds.cpp:148-196 | a packet is recorded as dropped, or its lidar is about to write it, and the invariant of the two threads is kept |
| `PipelineProof.ScribbleKeeps` | livox_ros_driver2/src/comm/ldq.cpp:139-144 | half-written slots are never seen |
| `PipelineProof.PublishIndexKeeps` | livox_ros_driver2/src/comm/ldq.cpp:146-146 | the published packet is whole and joins the ring in order |
| `PipelineProof.ReleaseSlotKeeps` | livox_ros_driver2/src/lddc.cpp:201-231 | the packet that was copied out is the oldest one, it has points, and it is published whole |
| `PipelineRuns.StepAwake` | livox_ros_driver2/src/lds.cpp:184-195 | every atomic step of either thread keeps the wake-up invariant |
| `PipelineRuns.NoLostWakeUp` | livox_ros_driver2/src/lds.cpp:170-196 | in every reachable interleaving the count is 0 or 1; when the publishing thread is in its wait, the count is positive, or the gathering thread still owes its test, or every sampling lidar has an empty ring |
| `PipelineRuns.NoSlotRace` | livox_ros_driver2/src/comm/ldq.cpp:86-148 | in every reachable interleaving the slot being written is not the slot being read, and no ring holds more than its size |
| `PipelineRuns.PointsAreConserved` | livox_ros_driver2/src/comm/pub_handler.cpp:164-227 | at all times every point that arrived is in exactly one place, in order of arrival: handed over, in a frame, or gathered; what was handed over and not dropped is what was published followed by what is in the ring |
| `PipelineRuns.StoredOrDropped` | livox_ros_driver2/src/lds.cpp:148-196 | every frame handed over is in exactly one of the stored and the dropped log |
| `PipelineRuns.PublishedIsStamped` | livox_ros_driver2/src/comm/pub_handler.cpp:178-222 | a published frame has points, and its base time is the time of its first point |
| `PipelineRuns.FrameNeverOverflows` | livox_ros_driver2/src/comm/pub_handler.cpp:208-222 | a frame has at most one entry for each lidar, so 32 entries suffice for 32 lidars |
| `PipelineRuns.Returns` | livox_ros_driver2/src/lddc.cpp:118-177 | from any reachable state the publishing thread by itself comes back to its wait with the count at zero |
| `PipelineFrames.DeliverExactly` | livox_ros_driver2/src/lds.cpp:148-196 | in every reachable state a packet is dropped exactly when its lidar is unknown or its ring holds as many packets as it has slots; otherwise, once there are slots, it is going to be written |
| `PipelineFrames.NothingDroppedExactly` | livox_ros_driver2/src/lds.cpp:148-196 | over every run, no packet of a lidar is dropped exactly when no delivery finds the lidar unknown or its ring full |
| `PipelineFrames.EveryArrivalIsGathered` | livox_ros_driver2/src/comm/pub_handler.cpp:318-334 | over every run, what has been gathered of a lidar in all is what arrived from it, in order |
| `PipelineFrames.AnnouncedExactly` | livox_ros_driver2/src/lds.cpp:184-190 | after a packet has been stored, one signal is given when the ring has not been drained and the count is zero, and none otherwise |
| `PipelineFrames.FrameIsHandedOver` | livox_ros_driver2/src/comm/pub_handler.cpp:178-222 | when a frame is due, the gathering thread by itself hands over every point that has arrived from the lidars of the frame, in order, and leaves those of others alone |
| `PipelineFrames.ArrivedIsPublished` | livox_ros_driver2/src/lddc.cpp:118-177 | from any state between frames, a frame of all lidars and a drain publish everything that has arrived from a sampling lidar of which nothing was dropped, point by point in order |
| `PipelineFrames.NothingFromOthers` | livox_ros_driver2/src/lddc.cpp:118-145 | nothing is ever published from a lidar that is not sampling |
| `PipelineRuns.EverythingIsPublished` | livox_ros_driver2/src/lddc.cpp:118-177 | whenever the gathering thread is between frames, steps of the publishing thread alone lead to a state in which every packet stored by a sampling lidar has been published, in order |

## Left out

- Reader.Reader.Parse: texts longer than 214,748,055 characters, for which the exponent arithmetic on `int` may overflow, are not covered; neither are the flags for encoding validation, numbers as strings, NaN and Inf, and full precision.
- Utf8.Decode: UTF-16, UTF-32 and the Transcoder template are not modelled; the UTF-8 and ASCII instances are.
- Strings.UnescapeEscape: the encoding validation flag of the writer is not modelled; without it a UTF-8 target copies the bytes as they are.
- Document.ParseLeavesOneValue: member and element counts wrap at 32 bits, so the text is shorter than 2^32 characters.
- WriterHistory.PrettyHistory: sequences of up to 2^32-1 events, and no doubles or raw values.
- Equality.EqualIsSameMeaning: doubles are compared as floating-point numbers by the source and are not in the model of the comparison.
- StreamingValidator.StreamValidator.HandleParallel: parallel validators are values held by the context, not objects reached through pointers; the recursion into them is bounded by the height of the schema, which is shown to suffice.
- Schema.Satisfies: the fragment without patternProperties, pattern, enum, uniqueItems, dependencies, multipleOf and $ref, over an already compiled schema; a JSON text is not compiled to a schema. Error reports, document pointers and the output handler are left out. It is the library's own reading; SchemaDraft says where the draft reads the keywords of a compiled schema otherwise. Keywords whose values compiling ignores, such as a length above 32 bits, are not in a compiled schema; strings that are not well-formed have no length in either reading. A bound that is a double is given by the integers and the doubles it allows.
- PointerResolve.CreateAgainstGet: creating and resolving are functions on values; the update of a document in place and the allocation of its parts are not modelled.
- Reader.Reader.IterativeParse: the same bound on the length of the text as for the recursive parser.
- Pool.MemoryPoolAllocator.WithBuffer: blocks are 8-aligned only when the user's buffer is; the source asserts only that there is a buffer larger than a chunk header, and a buffer that is not aligned is not covered.
- Pool.MemoryPoolAllocator.Realloc: sizes are at most 2^63 bytes; above, rounding up and adding wrap.
- Pool.MemoryPoolAllocator.Malloc: chunk headers are fields, not bytes of the memory; where the base allocator puts a chunk is a parameter. Requests are at most 2^63 bytes.
- PipelineRuns.NoLostWakeUp: lidars do not change their connection state during a run, the PCL format that never pops in ROS 2 is excluded, and a ring gets its slots in one step.
- PacketQueue.PushLidarData: the size computed from the publishing frequency is a parameter, and the null checks are left out. A queue that has been de-initialised must be initialised before it is pushed to.
- CacheIndex.CacheIndex.GetFreeIndex: the texts printed on failure are left out. LvxGetIndex combines two others; its parts are among the sections of CacheRuns, where every access to the shared map without the lock counts as one step although the source makes it a data race.
- The iterative interface that parses one event at a time, Populate, the swap and move operations of documents, and the typed accessors.
- Pointer operations Set, Swap, Erase and the comparison of pointers.
- Printing and reading doubles: the conversions are in headers that are not part of this model.
- The vectorized loops and the bit tricks behind them; the generic loops are the reference.
- Extrinsic calibration and spherical coordinates: a point is an opaque payload with a time.
- ROS publishers, bag files, device callbacks, inertial data, configuration file handling, and thread start and exit.
- Everything outside the driver: the mapping and undistortion packages are floating-point geometry.
