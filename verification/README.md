# A verified model of the Livox SDK's vendored core

The Livox SDK reads its configuration with RapidJSON, checks its packets with FastCRC and keeps its
sockets in a device manager. This project models that code in Dafny and proves what it is for: two parsers
of one language that agree, a printer that the parser inverts, table-driven checks that equal their
bit-by-bit definitions, codecs that are exact bijections, pointers that survive being written and read,
and containers of mutable state that keep their invariants over every run.

`dafny verify dfyconfig.toml` checks the whole project.

## What is modelled

**JSON parser, document and printer** (`JsonSyntax` to `Reader`). Texts are sequences of tokens: brackets,
comma, colon, strings, literals, numbers and whitespace. A string, literal or number token carries what
its leaf parser makes of it, a value or an error. `Descent` is the recursive-descent parser, `Pushdown`
the automaton with its 14 by 11 table and its pull interface, both as functions from the text and the
events so far to what is left; a handler is any function of the events so far, so that it may stop the
parse at any point. `Document` rebuilds trees on a flat stack, `Printer` writes them from a stack of
levels, and the classes in `Reader`, `Document` and `Printer` do the same with fields, loops and a stack,
and are proved to compute those functions. A number's event carries its value, not the handler method that
announces it. `ParseFaults` says where and with which code a text fails, `HandlerLaw` what a handler's
answers change, and `PrinterLayout` how a tree is laid out. Counts are unsigned 32-bit integers that wrap;
what that does to a document is stated exactly, for texts of any length. The printer's count is unbounded.

**FastCRC** (`CrcTheory`, `Crc`, `FastCrc`, `FastCrc16`, `CrcSplitting`, `CrcChecks`). The theory of
slicing by four is proved for any words with an exclusive or and instantiated on `bv32`; 16-bit registers
are carried in the low or high half of a 32-bit one. Tables are defined by the rule that generates them:
slice 0 by eight shifts, slice k by the zero-byte step of slice k - 1, 16-bit entries by the low half; the
entries at the powers of two and the documented check values are proved of them. Words in memory are
little-endian.

**Codecs, strings and numbers** (`Utf8`, `Utf16`, `Transcoder`, `JsonString`, `StringEncoding`,
`StringFaults`, `Numbers`). Streams end with NULs without end, as the SDK's file stream does.

**JSON Pointer** (`PointerSyntax`, `PointerRoundTrip`, `PointerFaults`, `PointerParser`, `PointerTree`)
and **the schema validator's path** (`SchemaPath`, `SchemaValidator`). Schemas are a judge who may refuse
at any question. Where percent-encoded octets are cut off at the end of a pointer, the source reads the
byte behind it before it tests for the end; the byte is taken to be readable, and its value does not
matter.

**Allocator and file streams** (`MemoryPool`, `MemoryPoolAllocator`, `FileStreams`). Sizes are 64-bit and
their sums wrap; what the base allocator offers is a parameter, assumed to be memory of the length asked
for, aligned and apart from other chunks. A user's buffer is assumed to be aligned and to lie in memory,
and the buffer of a write stream to have room for a byte; the source checks neither.

**Device manager** (`DeviceRegistry`, `DevicePlaces`, `DeviceManager`). Whoever creates sockets is a
function of all its results so far, which fails or yields a socket it never yielded before.

## Where the code differs from what it says

- `mcrf4xx` documents the seed FFFF and uses 0; its result is therefore KERMIT's on every message, and
  never the documented one (`FastCrc16.FastCRC16.Mcrf4xx`).
- The pointer's overflow test misses some wraps, and the largest index is the mark for no index; a numeral
  means an index exactly below 2^32 - 1 (`PointerRoundTrip.IndexIsDecimal`,
  `PointerRoundTrip.WrapIsMissed`, `PointerTree.LargestIsNoElement`).
- The schema validator counts elements in 32 bits, so an element with 2^32 or more before it is judged
  under the path of another; exactly then (`SchemaPath.PathsAreSpelled`,
  `SchemaPath.LastIsJudgedAsFirst`). The pointer to a refused value resolves to it exactly if all
  positions on the way are below 2^32 - 1 and all members the first of their names
  (`SchemaPath.InvalidPointerResolves`).
- The two parsers report different codes for a text that begins with a closing bracket, comma or colon,
  and the pull interface for a text of whitespace alone.
- Creating the detection channel when its key already is a command channel would rebind the key in one map
  only; the manager does so once, first of all (`DeviceRegistry.DetectionKeeps`).
- An escape may name an unpaired low surrogate, which is encoded as three bytes, so that the parsed string
  is no UTF-8 although encodings are checked (`StringEncoding.LoneTrailIsAccepted`); exactly these strings
  are not (`StringEncoding.ParsedIsUtf8`).
- A name appended to a pointer never counts as an index, but is read back as one if it spells one
  (`PointerRoundTrip.AppendedZeroIsAnIndex`, `PointerRoundTrip.AppendedIsReadBack`).
- A container of 2^32 children or more is closed with a wrapped count, and its first children stay on the
  document's stack (`Document.ParsedTree`).
- A request whose size wraps when it is aligned or added is handed a block that is too short or outside
  its chunk (`MemoryPool.MallocExactly`, `MemoryPool.ReallocExactly`).

## Model

| member | source | states |
|---|---|---|
| `ParserEquivalence.ParsersAgree` | Livox-SDK2/3rdparty/rapidjson/reader.h:2013-2433 | For every text, flags and handler, the table-driven parser and the recursive-descent parser accept the same texts, leave the same rest unread and give the handler the same events, on rejected texts too; the error codes differ exactly when the first token begins no value |
| `ParserEquivalence.SimulateValue` | Livox-SDK2/3rdparty/rapidjson/reader.h:1872-1896 | From any state that expects a value, with any stack, the automaton's run over one value is the recursive-descent parse of it, followed by the run from the state after it |
| `ParserPull.PullAgrees` | Livox-SDK2/3rdparty/rapidjson/reader.h:663-728 | Pulling until complete gives the events, the rest and the error of the push loop on every text, except that a text of nothing but whitespace is an invalid value instead of an empty document |
| `ParserPull.PullFollowsRun` | Livox-SDK2/3rdparty/rapidjson/reader.h:676-728 | From any configuration between two calls, the remaining pulls do what the remaining turns of the push loop do |
| `HandlerLaw.ParseIsCut` | Livox-SDK2/3rdparty/rapidjson/reader.h:614-650 | For every text and flags, both parsers do under any handler exactly what they do under one that never stops, up to the first event that is refused, which ends the parse as terminated |
| `Pushdown.IterativeParseNext` | Livox-SDK2/3rdparty/rapidjson/reader.h:676-728 | A call that goes on reports exactly one event and shortens the input; the inner loop over delimiters ends; the frames on the stack stay fit for the state |
| `Pushdown.Turn` | Livox-SDK2/3rdparty/rapidjson/reader.h:2408-2427 | One turn of the push loop followed by the rest of the run is the run |
| `Grammar.AcceptsExactlyDocuments` | Livox-SDK2/3rdparty/rapidjson/reader.h:614-650 | A text is accepted if and only if, whitespace apart, it spells a document that the flags allow, in full or as a prefix when parsing stops at the end of the root |
| `Grammar.DocumentEvents` | Livox-SDK2/3rdparty/rapidjson/reader.h:798-913 | Whatever document an accepted text spells, the events are those of the tree it denotes, and the rest is what follows it |
| `Grammar.AcceptedDocument` | Livox-SDK2/3rdparty/rapidjson/reader.h:798-913 | An accepted text spells some allowed document, whose tree's events are the ones emitted, whatever the handler |
| `Grammar.SpellingIsUnambiguous` | Livox-SDK2/3rdparty/rapidjson/reader.h:798-913 | A text denotes one tree: two documents it spells have the same tree and leave the same rest, for texts of any length |
| `ParseFaults.FirstFaultDecides` | Livox-SDK2/3rdparty/rapidjson/reader.h:2353-2433 | For every text, flags and handler: a parse fails at the first place of the text that cannot be gone on from, which the brackets left open, the tokens just before and the token ahead decide, with the code that says what was due there; or because the handler refused an event; and what succeeds has no such place in what was read |
| `ParseFaults.FailsIffFaulty` | Livox-SDK2/3rdparty/rapidjson/reader.h:2353-2433 | Under a handler that goes on, a parse of a whole text fails with a code if and only if that is the first fault of the text |
| `ParseFaults.DescentIsJudged` | Livox-SDK2/3rdparty/rapidjson/reader.h:798-913 | The same of the recursive-descent parser, except for a text that begins with what begins no value |
| `StackDiscipline.StepKeepsLayout` | Livox-SDK2/3rdparty/rapidjson/reader.h:2192-2325 | A transition on which no count wraps keeps the parser's frames in step with the document's stack: the count of each open container is the number of values above its slot, names and values in turn |
| `StackDiscipline.StepBalances` | Livox-SDK2/3rdparty/rapidjson/reader.h:2192-2325 | Every transition, whatever the counts: on the document's stack are the values that the frames account for, what was there in excess before, and the children that a wrapping count forgets; no event pops below the bottom |
| `StackDiscipline.RunKeepsLayout` | Livox-SDK2/3rdparty/rapidjson/reader.h:2401-2433 | From any configuration in step, a run on which no count wraps lets the document take only names for names and, if it succeeds, leaves one value |
| `StackDiscipline.RunBalances` | Livox-SDK2/3rdparty/rapidjson/reader.h:2401-2433 | From any configuration, a run that succeeds leaves the root, what was in excess before, and exactly what wrapping counts forgot |
| `StackDiscipline.DocumentNeverUnderflows` | Livox-SDK2/3rdparty/rapidjson/document.h:2738-2749 | For every text of any length, any flags and handler, parsed either way, accepted or not: no pop of the document's stack underflows; if no count wraps, only names are taken for names; and an accepted text leaves exactly one value, as the source asserts, if and only if no count wraps |
| `StackDiscipline.WrapsIffUncountable` | Livox-SDK2/3rdparty/rapidjson/document.h:2738-2749 | On an accepted text, a count wraps if and only if some container of the document it spells has 2^32 children or more |
| `StackDiscipline.ShortTextIsUnwrapped` | Livox-SDK2/3rdparty/rapidjson/reader.h:2401-2433 | On a text of fewer than 2^32 tokens, accepted or not, no count wraps |
| `Document.ParsedTree` | Livox-SDK2/3rdparty/rapidjson/document.h:2738-2749 | Parsing a text of any length leaves the tree that the text spells, by itself, if and only if no container in it has 2^32 children or more; and exactly then one value is left |
| `Document.AnnouncedTree` | Livox-SDK2/3rdparty/rapidjson/document.h:2926-3000 | Announcing a tree to a document pushes exactly that tree, whatever lies below it on the stack, if and only if no container of the tree has 2^32 children or more |
| `Document.HeightOfTree` | Livox-SDK2/3rdparty/rapidjson/document.h:2982-3000 | Announcing a tree adds at least one value, and exactly one if and only if no count wraps: what a wrapped count leaves behind, no enclosing container takes |
| `Document.ShortTextIsCountable` | Livox-SDK2/3rdparty/rapidjson/document.h:2738-2749 | In a text of at most 2^32 tokens, no container has so many children |
| `Document.GenericDocument.EndObject` | Livox-SDK2/3rdparty/rapidjson/document.h:2982-2988 | Closing an object takes two values a member off the stack and puts the members into the object below, whose slot is now on top |
| `Document.GenericDocument.EndArray` | Livox-SDK2/3rdparty/rapidjson/document.h:2995-3000 | Closing an array takes its elements off the stack and puts them into the array below |
| `Printer.PrintThenParse` | Livox-SDK2/3rdparty/rapidjson/prettywriter.h:163-310 | Every tree, in either array format and any indent, is printed without a failed assertion, and both parsers, under any flags, read back the tree's events, numbers compared by their values; the document rebuilds the tree from them if and only if no container has 2^32 children or more |
| `Printer.PrintTree` | Livox-SDK2/3rdparty/rapidjson/prettywriter.h:263-303 | After any prefix of events, printing a tree adds its spelling behind the separator that is due and counts one value more in the enclosing level |
| `PrinterLayout.PrintedLayout` | Livox-SDK2/3rdparty/rapidjson/prettywriter.h:163-310 | Every tree is laid out from the left margin: each element and member on a line of its own, indented by the number of containers open there; a space behind each colon; single-line arrays with a space behind each comma; brackets of empty containers together |
| `Printer.PrettyWriter.PrettyPrefix` | Livox-SDK2/3rdparty/rapidjson/prettywriter.h:263-303 | The writer puts the comma, colon, newline and indentation that the parity of the count calls for, and counts the value |
| `Printer.PrettyWriter.EndObject` | Livox-SDK2/3rdparty/rapidjson/prettywriter.h:180-205 | The level is popped, the closing brace goes on its own indented line unless the object is empty |
| `Reader.GenericReader.ParseObject` | Livox-SDK2/3rdparty/rapidjson/reader.h:798-866 | The loop over members leaves stream, error and reported events as the recursive-descent grammar says |
| `Reader.GenericReader.ParseArray` | Livox-SDK2/3rdparty/rapidjson/reader.h:869-913 | The loop over elements leaves stream, error and reported events as the recursive-descent grammar says |
| `Reader.GenericReader.Parse` | Livox-SDK2/3rdparty/rapidjson/reader.h:615-650 | A whole parse through the mutable reader is the parse that the theorems are about |
| `Reader.GenericReader.Transit` | Livox-SDK2/3rdparty/rapidjson/reader.h:2192-2325 | One transition pushes or pops the frame, reports the event or sets the error, and yields the state that the pushdown automaton moves to |
| `Reader.GenericReader.IterativeParse` | Livox-SDK2/3rdparty/rapidjson/reader.h:2401-2433 | The loop over transitions computes the run of the automaton |
| `Reader.GenericReader.IterativeParseNext` | Livox-SDK2/3rdparty/rapidjson/reader.h:676-728 | One pulled step on the mutable reader is one step of the pull interface |
| `CrcTheory.FourSteps` | Livox-SDK2/3rdparty/FastCRC/FastCRCsw.cpp:421-425 | Over any words with an exclusive or: with a linear byte table, four table steps of a register are the sum of one lookup per byte in slices 3 to 0 |
| `CrcTheory.FeedFourBytes` | Livox-SDK2/3rdparty/FastCRC/FastCRCsw.cpp:421-425 | Feeding four bytes one at a time is adding their word at once and taking four steps |
| `Crc.BigStepIsFour` | Livox-SDK2/3rdparty/FastCRC/FastCRCsw.cpp:421-425 | The big-table step on any 32-bit register is four byte steps, for every linear table, each slice being the zero-byte step of the slice before |
| `Crc.FeedIsReflected` | Livox-SDK2/3rdparty/FastCRC/FastCRCsw.cpp:445-479 | A register fed by table, for any polynomial, seed and message, is the bit-by-bit reflected register |
| `Crc.FeedIsForward` | Livox-SDK2/3rdparty/FastCRC/FastCRCsw.cpp:499-532 | The register that is kept byte-swapped and shifted right is, swapped back, the left-shifting bit-by-bit register, for any polynomial, seed and message |
| `Crc.EightForwardShifts` | Livox-SDK2/3rdparty/FastCRC/FastCRCsw.cpp:58-69 | Seen byte-swapped, eight left shifts of any register are one lookup step of the swapped table |
| `FastCrc.Update32` | Livox-SDK2/3rdparty/FastCRC/FastCRCsw.cpp:445-479 | Whatever the start alignment and table configuration, the prologue, the sixteen-byte loop and the tail feed every byte once and in order; words are only read at aligned addresses |
| `FastCrc.WordBySmallTable` | Livox-SDK2/3rdparty/FastCRC/FastCRCsw.cpp:427-431 | The small-table macro takes the same four steps as the big-table macro |
| `FastCrc.FastCRC32.Crc32Upd` | Livox-SDK2/3rdparty/FastCRC/FastCRCsw.cpp:445-479 | The stored seed is the bit-by-bit CRC-32 register after the message from the old seed, and its complement is returned |
| `FastCrc.FastCRC32.Crc32` | Livox-SDK2/3rdparty/FastCRC/FastCRCsw.cpp:481-485 | The result is the CRC-32 of section 8 of RFC 1952, for every message and alignment; it is the one with the check value CBF43926 (`CrcChecks.Crc32OfDigits`) |
| `FastCrc.FastCRC32.CksumUpd` | Livox-SDK2/3rdparty/FastCRC/FastCRCsw.cpp:499-532 | The stored seed is the byte swap of the left-shifting register, and the complement of the swapped-back register is returned |
| `FastCrc.FastCRC32.Cksum` | Livox-SDK2/3rdparty/FastCRC/FastCRCsw.cpp:534-539 | The result is the MSB-first CRC with polynomial 04C11DB7 from 0, complemented |
| `FastCrc16.WordStepInLow` | Livox-SDK2/3rdparty/FastCRC/FastCRCsw.cpp:161-165 | On a 16-bit register, the four-byte macro, which sends the word's high half straight to the table, is four byte steps, and no entry exceeds 16 bits |
| `FastCrc16.FastCRC16.CcittUpd` | Livox-SDK2/3rdparty/FastCRC/FastCRCsw.cpp:173-199 | The stored seed is the swap of the left-shifting register after the message; the swapped-back register is returned |
| `FastCrc16.FastCRC16.Ccitt` | Livox-SDK2/3rdparty/FastCRC/FastCRCsw.cpp:200-205 | The result is the bit-by-bit MSB-first CRC with polynomial 1021 from FFFF |
| `FastCrc16.FastCRC16.Xmodem` | Livox-SDK2/3rdparty/FastCRC/FastCRCsw.cpp:363-368 | The result is the bit-by-bit MSB-first CRC with polynomial 1021 from 0 |
| `FastCrc16.FastCRC16.X25` | Livox-SDK2/3rdparty/FastCRC/FastCRCsw.cpp:405-410 | The result is the complement of the reflected CRC from FFFF, while the stored seed stays uncomplemented |
| `FastCrc16.FastCRC16.Kermit` | Livox-SDK2/3rdparty/FastCRC/FastCRCsw.cpp:321-327 | The result is the bit-by-bit reflected CRC from 0 |
| `FastCrc16.FastCRC16.Modbus` | Livox-SDK2/3rdparty/FastCRC/FastCRCsw.cpp:281-286 | The result is the bit-by-bit reflected CRC with the reflected polynomial A001 from FFFF |
| `FastCrc16.FastCRC16.Mcrf4xx` | Livox-SDK2/3rdparty/FastCRC/FastCRCsw.cpp:241-246 | The code starts from 0, so the result is the reflected CRC from 0 and never, on any message, the one from FFFF that the comment asks for |
| `FastCrc16.SeedsStayApart` | Livox-SDK2/3rdparty/FastCRC/FastCRCsw.cpp:241-246 | Two different seeds give different checks on every message, when the polynomial has its top bit |
| `CrcChecks.Crc32OfDigits` | Livox-SDK2/3rdparty/FastCRC/FastCRCsw.cpp:481-485 | CRC-32 of the digits 1 to 9 is CBF43926 |
| `CrcChecks.CksumOfDigits` | Livox-SDK2/3rdparty/FastCRC/FastCRCsw.cpp:534-539 | CKSUM of the digits 1 to 9 is 765E7680 |
| `CrcChecks.CcittOfDigits` | Livox-SDK2/3rdparty/FastCRC/FastCRCsw.cpp:200-205 | CCITT of the digits 1 to 9 is 29B1 |
| `CrcChecks.XmodemOfDigits` | Livox-SDK2/3rdparty/FastCRC/FastCRCsw.cpp:363-368 | XMODEM of the digits 1 to 9 is 31C3 |
| `CrcChecks.KermitOfDigits` | Livox-SDK2/3rdparty/FastCRC/FastCRCsw.cpp:321-327 | KERMIT of the digits 1 to 9 is 2189 |
| `CrcChecks.X25OfDigits` | Livox-SDK2/3rdparty/FastCRC/FastCRCsw.cpp:405-410 | The register of X25 after the digits 1 to 9 is the 6F91 that mcrf4xx documents, and its complement the 906E of X25 |
| `CrcChecks.ModbusOfDigits` | Livox-SDK2/3rdparty/FastCRC/FastCRCsw.cpp:281-286 | MODBUS of the digits 1 to 9 is 4B37 |
| `CrcChecks.Crc32Table` | Livox-SDK2/3rdparty/FastCRC/FastCRC_tables.h:939-1004 | The generated table has the printed entries at 1, 2, 4 and so on up to 128 |
| `CrcChecks.CksumTable` | Livox-SDK2/3rdparty/FastCRC/FastCRC_tables.h:1265-1330 | The same of the byte-swapped table of CKSUM |
| `CrcChecks.CcittTable` | Livox-SDK2/3rdparty/FastCRC/FastCRC_tables.h:153-186 | The same of the byte-swapped table of CCITT and XMODEM |
| `CrcChecks.KermitTable` | Livox-SDK2/3rdparty/FastCRC/FastCRC_tables.h:546-579 | The same of the table of KERMIT, X25 and MCRF4XX |
| `CrcChecks.ModbusTable` | Livox-SDK2/3rdparty/FastCRC/FastCRC_tables.h:415-448 | The same of the table of MODBUS |
| `CrcChecks.BasisFixesTable` | Livox-SDK2/3rdparty/FastCRC/FastCRC_tables.h:939-1004 | Two linear tables with the same entries there are the same on every byte |
| `CrcSplitting.Crc32InParts` | Livox-SDK2/3rdparty/FastCRC/FastCRCsw.cpp:445-485 | For every partition of a message, at any alignments, the one-shot call on the first part and updates with the rest give the one-shot result on the whole |
| `CrcSplitting.CksumInParts` | Livox-SDK2/3rdparty/FastCRC/FastCRCsw.cpp:499-539 | Splitting invariance of the byte-swapped 32-bit check |
| `CrcSplitting.CcittInParts` | Livox-SDK2/3rdparty/FastCRC/FastCRCsw.cpp:173-205 | Splitting invariance of the byte-swapped 16-bit check |
| `CrcSplitting.X25InParts` | Livox-SDK2/3rdparty/FastCRC/FastCRCsw.cpp:376-410 | Splitting invariance of the check with a final complement |
| `Utf8.DecodeAcceptsWellFormed` | Livox-SDK2/3rdparty/rapidjson/encodings.h:148-212 | The decoder accepts exactly the byte sequences of section 4 of RFC 3629, with the code point they stand for |
| `Utf8.AcceptedIsEncoding` | Livox-SDK2/3rdparty/rapidjson/encodings.h:148-212 | Every accepted sequence is the encoding of the decoded code point, a scalar value: no overlong form, surrogate or value above 10FFFF |
| `Utf8.DecodeOfEncoding` | Livox-SDK2/3rdparty/rapidjson/encodings.h:108-125 | Wherever the encoding of a scalar value stands in a stream, the decoder reads that value and takes that many bytes |
| `Utf8.AcceptedExactlyEncodings` | Livox-SDK2/3rdparty/rapidjson/encodings.h:148-212 | A stream is accepted at a place if and only if the encoding of some scalar value stands there |
| `Utf8.AcceptedInsideStream` | Livox-SDK2/3rdparty/rapidjson/encodings.h:148-212 | An accepted sequence never reaches into the NULs behind the end of its stream |
| `Utf8.DecodeStream` | Livox-SDK2/3rdparty/rapidjson/encodings.h:148-212 | The switch over range classes on a stream computes the decoder, taking all continuation bytes even after one has failed |
| `Utf8.EncodeStream` | Livox-SDK2/3rdparty/rapidjson/encodings.h:108-125 | The encoding is appended to the output stream |
| `Utf8.Validate` | Livox-SDK2/3rdparty/rapidjson/encodings.h:214-267 | Validation accepts what decoding accepts, takes as many bytes and copies them unchanged |
| `Utf16.AcceptedUnitsAreEncoding` | Livox-SDK2/3rdparty/rapidjson/encodings.h:388-402 | Every accepted unit or surrogate pair is the UTF-16 encoding of the decoded scalar value |
| `Utf16.DecodeOfUnits` | Livox-SDK2/3rdparty/rapidjson/encodings.h:355-369 | Wherever the UTF-16 encoding of a scalar value stands, the decoder reads that value (sections 2.1 and 2.2 of RFC 2781) |
| `Utf16.UnitsByNumber` | Livox-SDK2/3rdparty/rapidjson/encodings.h:355-369 | The units of every scalar value by their numbers |
| `Utf16.DecodeUnitStream` | Livox-SDK2/3rdparty/rapidjson/encodings.h:388-402 | The unit decoder on a stream: a lone low surrogate takes one unit, a high one takes the next with it |
| `Transcoder.Utf8RoundTrip` | Livox-SDK2/3rdparty/rapidjson/encodings.h:754-761 | Whatever UTF-8 string transcodes to UTF-16 transcodes back to itself |
| `Transcoder.Utf16RoundTrip` | Livox-SDK2/3rdparty/rapidjson/encodings.h:754-761 | Whatever UTF-16 string transcodes to UTF-8 transcodes back to itself |
| `Transcoder.EveryTextTranscodes` | Livox-SDK2/3rdparty/rapidjson/encodings.h:754-761 | The encoding of every text of scalar values transcodes, both ways, to its other encoding |
| `Transcoder.TranscodedText` | Livox-SDK2/3rdparty/rapidjson/encodings.h:754-761 | What transcodes is the encoding of a text, and the result is that text's other encoding, for any two encodings whose decoder inverts their encoder |
| `Transcoder.Transcode` | Livox-SDK2/3rdparty/rapidjson/encodings.h:754-761 | One code point from the UTF-8 stream to the UTF-16 stream, nothing put when it is refused |
| `JsonString.ReadText` | Livox-SDK2/3rdparty/rapidjson/reader.h:1058-1128 | Every spelling of a text, by any mix of literal characters, escape letters, unit escapes and surrogate pairs, is read up to its closing quote as the UTF-8 encoding of its meaning, whether or not encodings are checked |
| `JsonString.ParsedText` | Livox-SDK2/3rdparty/rapidjson/reader.h:1058-1128 | With encodings checked, nothing else is accepted: the bytes taken spell a text and the output is its meaning, an unpaired low surrogate counting as a unit |
| `StringFaults.StringEnds` | Livox-SDK2/3rdparty/rapidjson/reader.h:1058-1128 | Every string parse, with the encoding checked or not, takes pieces that are told by their bytes, escape letters, units, surrogate pairs and bytes that stand for themselves, and puts out what they stand for, up to a quote or to the first place that is none of these; the error and its offset name that place |
| `StringFaults.EndsDecide` | Livox-SDK2/3rdparty/rapidjson/reader.h:1058-1128 | And whatever can be explained so is the result of the parse |
| `StringEncoding.ParsedIsUtf8` | Livox-SDK2/3rdparty/rapidjson/reader.h:1089-1106 | With encodings checked, what is parsed is well-formed UTF-8 if and only if no escape of the string names a low surrogate without a high one before it, and then it transcodes to the UTF-16 encoding of what the string means, which has one reading only |
| `StringEncoding.LoneTrailIsAccepted` | Livox-SDK2/3rdparty/rapidjson/reader.h:1089-1106 | The escape of DC00 by itself is accepted and yields ED B0 80, which no decoder accepts |
| `StringEncoding.TrailIsRefused` | Livox-SDK2/3rdparty/rapidjson/encodings.h:148-212 | The decoder refuses the encoding of every low surrogate, wherever it stands |
| `JsonString.EscapedTextIsReadBack` | Livox-SDK2/3rdparty/rapidjson/reader.h:1089-1106 | Every text of scalar values, written in escapes alone with surrogate pairs above the basic plane, is read back as its UTF-8 encoding |
| `JsonString.ParseHex4` | Livox-SDK2/3rdparty/rapidjson/reader.h:967-987 | Four hexadecimal digits of either case give their value; otherwise an error |
| `JsonString.ParseStringToStream` | Livox-SDK2/3rdparty/rapidjson/reader.h:1058-1128 | The loop puts the meaning of the string and a NUL, or returns the error and the offset of its escape or byte |
| `Numbers.ParseNumber` | Livox-SDK2/3rdparty/rapidjson/reader.h:1598-1708 | From the bytes alone: where no digit stands, perhaps behind a minus, there is no number; otherwise a numeral stands there, it is taken whole, and it is told to go on exactly before a point or the letter of an exponent, and otherwise reported with its exact value in the type its sign and magnitude call for, or as beyond 64 bits |
| `Numbers.LiteralIsReported` | Livox-SDK2/3rdparty/rapidjson/reader.h:1598-1756 | Every integer literal at any place of a text, of any length and before any byte, is reported so |
| `Numbers.LiteralIsFound` | Livox-SDK2/3rdparty/rapidjson/reader.h:1598-1756 | Wherever a digit stands, perhaps behind a minus, there is such a literal, and elsewhere there is no number |
| `Numbers.Digits32` | Livox-SDK2/3rdparty/rapidjson/reader.h:1609-1635 | The 32-bit loop stops exactly before the digit that would overflow its limit, with the accumulator the value of the digits taken |
| `Numbers.Digits64` | Livox-SDK2/3rdparty/rapidjson/reader.h:1666-1701 | The 64-bit loop goes on from there and stops exactly before the digit that would overflow |
| `Numbers.NegateIsExact` | Livox-SDK2/3rdparty/rapidjson/reader.h:1852-1864 | Complement plus one, cast to signed, is the exact negative up to 2^31 and 2^63 |
| `Numbers.LiteralInDocument` | Livox-SDK2/3rdparty/rapidjson/document.h:858-899 | From text to document, for every integer literal before any byte: it has a fraction or an exponent exactly before a point or e or E; otherwise it is beyond 64 bits exactly if its value is, and else becomes a value that every integer type able to hold it returns exactly and no other type offers |
| `Numbers.FlagsAreExact` | Livox-SDK2/3rdparty/rapidjson/document.h:858-899 | For every integer event, each type's flag is set exactly when the value fits it, and then that type's getter returns the value |
| `Numbers.ValueDecides` | Livox-SDK2/3rdparty/rapidjson/document.h:2318-2328 | Two integers reported by whatever handler methods are the same number of a document if and only if their values agree, and a document announces a number with its value |
| `Numbers.PrintedIsReadBack` | Livox-SDK2/3rdparty/rapidjson/internal/itoa.h:113-122 | An integer of up to 64 bits, announced by any method and printed in decimal, is read back as the same number of the document |
| `PointerRoundTrip.ParseOfStringify` | Livox-SDK2/3rdparty/rapidjson/pointer.h:1150-1178 | Parsing what a pointer is stringified to, as a string or, when that succeeds, as a URI fragment, gives equal tokens and indices if and only if each token has the index that its name spells |
| `PointerRoundTrip.AppendedIsReadBack` | Livox-SDK2/3rdparty/rapidjson/pointer.h:334-389 | A pointer with an index appended is read back; one with a name appended is read back if and only if the name spells no index |
| `PointerRoundTrip.AppendedZeroIsAnIndex` | Livox-SDK2/3rdparty/rapidjson/pointer.h:334-338 | The name 0 appended to the root is written /0 and read back as the index 0, which it was not |
| `PointerRoundTrip.StringifyOfParse` | Livox-SDK2/3rdparty/rapidjson/pointer.h:1013-1142 | A string that parses as a pointer is exactly what the pointer is stringified to |
| `PointerRoundTrip.ParsedPointer` | Livox-SDK2/3rdparty/rapidjson/pointer.h:1021-1024 | A parsed pointer has exactly as many tokens as its source has slashes, each with the index its name spells |
| `PointerFaults.ParseIsPointer` | Livox-SDK2/3rdparty/rapidjson/pointer.h:1013-1142 | For every text, from its bytes alone: the tokens of a valid pointer, in both representations, are what the characters of its names stand for, escaped or percent-encoded in any way; an invalid one is named by its first character that is none, and its offset |
| `PointerFaults.UnitWritten` | Livox-SDK2/3rdparty/rapidjson/pointer.h:1150-1178 | Each character of a name is written as itself, as ~0 or ~1, or, in a fragment, if it is reserved, with its whole UTF-8 sequence in percent triplets in upper case; if there is no such sequence, nothing is written |
| `PointerFaults.OnlyNumeralsAreIndices` | Livox-SDK2/3rdparty/rapidjson/pointer.h:1100-1126 | Only a name of decimal digits without leading zeros has an index |
| `PointerRoundTrip.IndexIsDecimal` | Livox-SDK2/3rdparty/rapidjson/pointer.h:1100-1126 | A numeral has its decimal value as index if and only if that value is below 2^32 - 1, the mark for no index; other names have none |
| `PointerRoundTrip.WrapIsMissed` | Livox-SDK2/3rdparty/rapidjson/pointer.h:1117-1118 | The overflow test is incomplete: 10000000000 is given the index 1410065408 |
| `PointerRoundTrip.IndexTokenIsIndex` | Livox-SDK2/3rdparty/rapidjson/schema.h:1590-1609 | The numeral of an index, as the schema validator and Append write it, is a token with that index if and only if the index is below 2^32 - 1; that of 2^32 - 1 has the mark for no index |
| `PointerTree.LargestIsNoElement` | Livox-SDK2/3rdparty/rapidjson/pointer.h:635-637 | The numeral of 2^32 - 1 resolves in no array, and each gives way to an object when it is created |
| `PointerParser.GenericPointer.Parse` | Livox-SDK2/3rdparty/rapidjson/pointer.h:1013-1142 | The token array and the name buffer, sized before parsing, hold exactly the tokens, names and terminators, with no write outside either; an error leaves no tokens, its code and its offset |
| `PointerParser.ValidateOctets` | Livox-SDK2/3rdparty/rapidjson/pointer.h:1055-1071 | Percent-decoded octets pass exactly when enough valid triplets follow and decode as one UTF-8 sequence, which is then what the buffer holds |
| `PointerParser.ToIndex` | Livox-SDK2/3rdparty/rapidjson/pointer.h:1105-1126 | The conversion of a buffered name to its index, modulo 2^32 as the source computes it |
| `PointerTree.ExistsIffResolved` | Livox-SDK2/3rdparty/rapidjson/pointer.h:539-585 | alreadyExist is reported exactly when Get resolved before, and then Create finds the same location and changes nothing |
| `PointerTree.GetAfterCreate` | Livox-SDK2/3rdparty/rapidjson/pointer.h:622-649 | After Create or Set, Get resolves to the created location, unless the pointer met an array with a dash, which then stays unresolved |
| `PointerTree.CreatedIsNull` | Livox-SDK2/3rdparty/rapidjson/pointer.h:539-585 | A value that Create reports as new is null, however many containers were made on the way |
| `PointerTree.CreateGrows` | Livox-SDK2/3rdparty/rapidjson/pointer.h:539-585 | What stands on the way after Create: a container keeps its kind, but for an array that meets a name; where there was none, an index makes an array and a name an object; an array has exactly as many elements as before or as its index needs, the new ones null; an object gains at most the member named; everything beside the way is as it was |
| `PointerTree.SetGrows` | Livox-SDK2/3rdparty/rapidjson/pointer.h:781-784 | The same of Set, with the value set at the end of the way |
| `PointerTree.GrownInOneWay` | Livox-SDK2/3rdparty/rapidjson/pointer.h:539-585 | Only one tree and one location answer that description |
| `PointerTree.NameThenIndex` | Livox-SDK2/3rdparty/rapidjson/pointer.h:554-555 | /a/0 created in an empty object gives an object with an array of one null |
| `PointerTree.SetThenGet` | Livox-SDK2/3rdparty/rapidjson/pointer.h:781-784 | After Set, Get resolves and the value stands there |
| `PointerTree.ParsedPointerLaws` | Livox-SDK2/3rdparty/rapidjson/pointer.h:781-784 | For every text that parses as a pointer and every tree: what is set is found there again unless a dash met an array, and alreadyExist is reported exactly when Get resolved |
| `PointerTree.SetAgain` | Livox-SDK2/3rdparty/rapidjson/pointer.h:781-784 | Setting twice is setting the second value |
| `PointerTree.SetLeavesOthers` | Livox-SDK2/3rdparty/rapidjson/pointer.h:539-585 | Every value apart from the created location stays where and what it was if and only if no array gives way to an object while it has elements that are not there any more afterwards |
| `PointerTree.DiscardsOnlyElements` | Livox-SDK2/3rdparty/rapidjson/pointer.h:539-585 | An array of two elements or more that gives way always loses some; making levels that are missing, in whatever number, loses nothing |
| `PointerTree.Root.GetValue` | Livox-SDK2/3rdparty/rapidjson/pointer.h:622-649 | The loop resolves as Get does, and names the first token that does not resolve |
| `PointerTree.Root.CreateValue` | Livox-SDK2/3rdparty/rapidjson/pointer.h:539-585 | The loop that grows the tree along the tokens computes Create, and so grows it as described (`PointerTree.CreateGrows`) |
| `PointerTree.Root.SetValue` | Livox-SDK2/3rdparty/rapidjson/pointer.h:781-784 | The tree is grown as described, with the value at the created location |
| `SchemaPath.PathsAreSpelled` | Livox-SDK2/3rdparty/rapidjson/schema.h:2244-2342 | Over the events of any tree, whatever the schemas answer: the questions are about the places of the tree in their order; each is put at the path of its value if and only if no array position on the way is 2^32 or more; a refusal leaves the path standing, and a valid run visits every place and ends with the stack as it was but for the last token of the base |
| `SchemaPath.VerdictIsTheJudges` | Livox-SDK2/3rdparty/rapidjson/schema.h:2244-2342 | The verdict on every tree, from the judge and the tree alone: valid if and only if the judge accepts each question, the paths put in order one after the other; a refusal ends the questions with the first that is refused |
| `SchemaPath.OrderOfExample` | Livox-SDK2/3rdparty/rapidjson/schema.h:2430-2512 | An object that holds an array that holds a null is asked about as often, and in the order, as the source's calls of its schemas have it |
| `SchemaPath.PlacesAreTheTree` | Livox-SDK2/3rdparty/rapidjson/schema.h:2244-2342 | The places that questions are about are all the places of the tree and no others |
| `SchemaPath.ValidPathsAreTrue` | Livox-SDK2/3rdparty/rapidjson/schema.h:2430-2463 | A validation that refuses nothing puts every question at the path of its value if and only if no array has more than 2^32 elements |
| `SchemaPath.LastIsJudgedAsFirst` | Livox-SDK2/3rdparty/rapidjson/schema.h:764-764 | In an array of 2^32 nulls and one more, the last is judged under the path of the first |
| `SchemaPath.InvalidPointerLeads` | Livox-SDK2/3rdparty/rapidjson/schema.h:2024-2031 | After a failed validation, the stack parses as the JSON Pointer with the names put on the way to the very value that was refused; they are the names on the way to it if and only if no array position there is 2^32 or more |
| `SchemaPath.InvalidPointerResolves` | Livox-SDK2/3rdparty/rapidjson/schema.h:2024-2031 | The pointer reported after a failed validation resolves to the place of the very value that was refused if and only if, on the way to it, every array position is below 2^32 - 1 and every member is the first of its name |
| `SchemaPath.PutPathResolves` | Livox-SDK2/3rdparty/rapidjson/pointer.h:622-649 | The pointer made of the names put on the way to a place resolves to exactly that place under the same condition |
| `SchemaPath.AllFoundIffWellNamed` | Livox-SDK2/3rdparty/rapidjson/pointer.h:622-649 | That condition holds of every place if and only if no array has 2^32 elements or more and no object two members of one name |
| `SchemaPath.RemoveAppended` | Livox-SDK2/3rdparty/rapidjson/schema.h:2506-2529 | Popping to the last slash removes exactly the token appended last, whatever bytes its name has |
| `SchemaPath.SpelledPathParses` | Livox-SDK2/3rdparty/rapidjson/schema.h:2514-2529 | What the stack spells parses as a JSON Pointer whose tokens are the original names |
| `SchemaValidator.GenericSchemaValidator.Begin` | Livox-SDK2/3rdparty/rapidjson/schema.h:2430-2463 | A value begins on the path as the state machine says, with the element's index appended inside an array |
| `SchemaValidator.GenericSchemaValidator.End` | Livox-SDK2/3rdparty/rapidjson/schema.h:2466-2512 | A value's context and its last token go, unless a schema refuses first |
| `SchemaValidator.GenericSchemaValidator.PushToken` | Livox-SDK2/3rdparty/rapidjson/schema.h:2514-2529 | The loop appends a slash and the escaped name |
| `SchemaValidator.GenericSchemaValidator.PopToken` | Livox-SDK2/3rdparty/rapidjson/schema.h:2506-2509 | The loop pops through the last slash, or everything |
| `SchemaValidator.GenericSchemaValidator.Validate` | Livox-SDK2/3rdparty/rapidjson/document.h:2285-2330 | A document announced to the validator until the first refusal is found valid if and only if the judge accepts every question about it in order; otherwise the questions end with the first refused; each is put at the path of its value unless an array position on the way is 2^32 or more; after a refusal the pointer of the stack resolves to the refused value exactly if that can be found |
| `MemoryPool.RunKeeps` | Livox-SDK2/3rdparty/rapidjson/allocators.h:178-281 | Over any run of Malloc, Realloc and Clear, with sizes that wrap as size_t does: every operation hands out enough and keeps live blocks 8-aligned, inside a chunk and pairwise disjoint, chunks disjoint and a user's buffer last, if and only if no sum of sizes wraps on the way to a block |
| `MemoryPool.ReachableIsValid` | Livox-SDK2/3rdparty/rapidjson/allocators.h:201-206 | In every pool reached from a new one by operations on which no sum wraps, Size is at most Capacity, which is below 2^64 |
| `MemoryPool.MallocKeeps` | Livox-SDK2/3rdparty/rapidjson/allocators.h:208-220 | NULL is returned exactly for size 0 or when a needed chunk is refused, and then nothing changes; otherwise, unless a sum wraps, the block is as long as asked for and apart from all live ones |
| `MemoryPool.MallocExactly` | Livox-SDK2/3rdparty/rapidjson/allocators.h:208-220 | A block that is handed out is long enough in a valid pool if and only if neither its aligned size, nor the fill of its chunk, nor the size of a new chunk wraps |
| `MemoryPool.ReallocKeeps` | Livox-SDK2/3rdparty/rapidjson/allocators.h:223-253 | Unless a sum wraps, a resized block is live with its new size, in its place or apart from all; all other blocks stay; a failure changes nothing |
| `MemoryPool.ReallocExactly` | Livox-SDK2/3rdparty/rapidjson/allocators.h:223-253 | The same of a block that is resized, in place or not |
| `MemoryPool.GrowKeeps` | Livox-SDK2/3rdparty/rapidjson/allocators.h:234-245 | Growing in place within the chunk never meets a live block, whatever shrinks were ignored before |
| `MemoryPool.MallocGrows` | Livox-SDK2/3rdparty/rapidjson/allocators.h:208-220 | Unless a sum wraps, a block takes its size rounded up to eight, from the newest chunk if that has room and else from a new chunk, whose capacity is the configured one or the block's if that is larger; by so much Size and Capacity grow, and there the block is |
| `MemoryPool.ReallocGrows` | Livox-SDK2/3rdparty/rapidjson/allocators.h:223-253 | A block stays if it does not grow, or if it is the newest chunk's last and there is room behind it, which takes the difference; otherwise it is allocated anew |
| `MemoryPool.ClearEmpties` | Livox-SDK2/3rdparty/rapidjson/allocators.h:178-186 | After Clear nothing is in use, and only a user's buffer is left, with its capacity |
| `MemoryPoolAllocator.MemoryPoolAllocator.Realloc` | Livox-SDK2/3rdparty/rapidjson/allocators.h:223-253 | Unless a sum of sizes wraps, the new block holds the old bytes, and every other live block keeps its own |
| `MemoryPoolAllocator.MemoryPoolAllocator.Malloc` | Livox-SDK2/3rdparty/rapidjson/allocators.h:208-220 | The pool after the call is valid, with a block as long as asked for, if and only if no sum of sizes wraps |
| `MemoryPoolAllocator.MemoryPoolAllocator.Clear` | Livox-SDK2/3rdparty/rapidjson/allocators.h:178-186 | Chunks are dropped until a user's buffer, emptied, or nothing is left |
| `MemoryPoolAllocator.MemoryPoolAllocator.Size` | Livox-SDK2/3rdparty/rapidjson/allocators.h:201-206 | The sum of the chunks' sizes, which does not wrap and is at most their capacity |
| `FileStreams.FileReadStream.Take` | Livox-SDK2/3rdparty/rapidjson/filereadstream.h:63-67 | The next byte of the plain file, or a NUL without end behind it, for any buffer of at least four bytes and any file length |
| `FileStreams.FileReadStream.Peek4` | Livox-SDK2/3rdparty/rapidjson/filereadstream.h:85-87 | Four bytes are offered only if they are the file's next four, and at the end of the file exactly if it has four more |
| `FileStreams.FileReadStream.Read` | Livox-SDK2/3rdparty/rapidjson/filereadstream.h:90-105 | The position advances by one, not beyond the end of the file, and the buffer holds the file from its count on |
| `FileStreams.TakeMany` | Livox-SDK2/3rdparty/rapidjson/filereadstream.h:62-70 | Any number of takes gives the file followed by NULs, and the offset told is at most the file's length |
| `FileStreams.FileWriteStream.Put` | Livox-SDK2/3rdparty/rapidjson/filewritestream.h:48-52 | What is written and what is buffered together grow by exactly the byte put |
| `FileStreams.FileWriteStream.PutN` | Livox-SDK2/3rdparty/rapidjson/filewritestream.h:54-68 | n copies of a byte are appended, filling and flushing the buffer as often as needed |
| `FileStreams.FileWriteStream.Flush` | Livox-SDK2/3rdparty/rapidjson/filewritestream.h:70-81 | Everything put so far is in the file, in order |
| `DeviceRegistry.RunKeeps` | Livox-SDK2/sdk_core/device_manager.cpp:529-540 | In every reachable state the command channels are a sub-map of an injective channel map, and nothing bound before is ever rebound |
| `DeviceRegistry.ReachableKeeps` | Livox-SDK2/sdk_core/device_manager.cpp:224-243 | From the start on, whatever sockets fail and whatever is discovered: the invariant holds, and nothing bound by the start is ever rebound |
| `DeviceRegistry.EveryLidarHasChannel` | Livox-SDK2/sdk_core/device_manager.cpp:747-758 | After a successful pass as master, every lidar whose configuration has a host address and a command port other than 0 and the log port has a command channel |
| `DeviceRegistry.PassServes` | Livox-SDK2/sdk_core/device_manager.cpp:224-243 | A successful pass leaves a channel for everything it was to create |
| `DeviceRegistry.PassOpensPorts` | Livox-SDK2/sdk_core/device_manager.cpp:272-327 | After a successful pass, every push, point, IMU and log port has its channel where it is asked for, and every command port besides its command channel, and no other key has come to have one |
| `DeviceRegistry.PassFails` | Livox-SDK2/sdk_core/device_manager.cpp:272-327 | A pass fails if and only if a socket that it asks for is refused |
| `DeviceRegistry.PassIsIdempotent` | Livox-SDK2/sdk_core/device_manager.cpp:529-540 | Repeating a pass that succeeded, on the same configurations, leaves both maps unchanged, even if it fails this time |
| `DeviceRegistry.DetectionKeeps` | Livox-SDK2/sdk_core/device_manager.cpp:245-270 | Creating the detection channel keeps the invariant exactly when its key is no command channel yet, and rebinds nothing exactly when its key is no channel yet; afterwards the key of port 56000 is bound in both maps, to the last socket created |
| `DeviceRegistry.DiscoverRegisters` | Livox-SDK2/sdk_core/device_manager.cpp:515-541 | A lidar that announces itself for the first time, of a configured type, is registered with that configuration, which is passed through from then on; nothing about any other lidar changes, and any other announcement changes nothing |
| `DeviceRegistry.DiscoveredLidarIsReached` | Livox-SDK2/sdk_core/device_manager.cpp:747-758 | After a discovery that succeeds as master, commands to the lidar go out on the one socket bound to the host address and command port of its own type |
| `DevicePlaces.ReachableListen` | Livox-SDK2/sdk_core/device_manager.cpp:329-388 | In every state reached from the start, whatever sockets fail and whatever is discovered, the socket of every channel was opened on the address and port that its key names, any address for the local host |
| `DevicePlaces.CommandsGoOut` | Livox-SDK2/sdk_core/device_manager.cpp:747-758 | Commands to a lidar go out on a socket that was opened on its configuration's host address and command port |
| `DevicePlaces.PassBroadcasts` | Livox-SDK2/sdk_core/device_manager.cpp:308-316 | A successful pass has opened, for every Mid360, a socket for broadcasts on its push port |
| `DevicePlaces.DetectionOpens` | Livox-SDK2/sdk_core/device_manager.cpp:245-270 | The detection sockets are one for broadcasts and one on the host's address, both on port 56000 |
| `DeviceRegistry.KeyIsInjective` | Livox-SDK2/sdk_core/device_manager.cpp:335-335 | Two channels have the same key only if they have the same address and port, whatever the address contains |
| `DeviceManager.DeviceManager.CreateCmdSocketAndAddDelegate` | Livox-SDK2/sdk_core/device_manager.cpp:329-364 | A command channel reuses a socket bound to its key, or binds a new one in both maps; with fresh sockets, the invariant is kept, nothing is rebound, and a success leaves the channel there |
| `DeviceManager.DeviceManager.CreateChannels` | Livox-SDK2/sdk_core/device_manager.cpp:272-327 | Data and command channels are requested in order until one fails; a success leaves all of them there |
| `DeviceManager.DeviceManager.CreateChannel` | Livox-SDK2/sdk_core/device_manager.cpp:224-243 | The start: detection sockets, then a pass over all configurations; the invariant holds afterwards, and a success leaves every configuration served |
| `DeviceManager.DeviceManager.OnDetection` | Livox-SDK2/sdk_core/device_manager.cpp:515-541 | A lidar seen for the first time is registered with the configuration of its type, and all configurations are passed through again; any other announcement changes nothing; the invariant is kept, nothing is rebound, and a success leaves every configuration served if they were before |
| `DeviceManager.DeviceManager.GetCmdChannel` | Livox-SDK2/sdk_core/device_manager.cpp:747-758 | The command channel bound to the key of the lidar's configuration; there is one for every eligible lidar of a master whose configurations are served |

## Left out

- Splitting a text into tokens, comments between them, in-situ parsing, numbers as strings, and the byte
  offsets of structural errors, which are placed among the tokens (`ParseFaults`). Strings and numbers are
  modelled on bytes in `JsonString` and `Numbers`, where the offsets of string errors are kept.
- Values of doubles, exponents, NaN and infinity, and the error for a number too large for a double: a
  number with a fraction or an exponent, or beyond 64 bits, is told apart from an integer and no more.
- writer.h is not part of this model: how a string or a double is printed is its token. Of an integer, the
  token stands for its decimal numeral (`Numbers.PrintedIsReadBack`).
- internal/stack.h is not part of this model: stacks are sequences or lists.
- SIMD scanning, the KINETIS hardware checks, and the 7-bit and 8-bit checks, whose byte loops are the
  simplest case of the ones modelled.
- The numeric contents of FastCRC_tables.h but for the byte tables' entries at the powers of two: the
  generating rules stand for them.
- Which whitespace character is printed where: a newline and a space are one token
  (`PrinterLayout.PrintedLayout`).
- What a socket's options and multicast group are.
- Names of 2^32 or more code units, whose length the source truncates.
- Element nodes and pointers of a document that a JSON Pointer walks in place: trees are values, and a
  location is the sequence of child positions (`PointerTree.Root`).
- `Erase` and `Swap` of a pointer, `Append` of a token or a value, and its comparison operators.
- Schema keywords, sub-validators and an output handler behind the validator.
- The linked list of the allocator's chunks, which is a sequence here.
- Short reads and writes of a file other than at its end.
- Sockets, threads, input and output loops, logging, view mode and `Destory` of the device manager;
  broadcast sockets are requested and never kept in the maps.
- FastCrc16.FastCRC16.Mcrf4xx: does not compute the documented check, because the code starts from another
  seed; that it never does is stated instead.
- PointerRoundTrip.IndexIsDecimal: gives an index its decimal meaning only below 2^32 - 1, because the
  code wraps, and marks the absence of an index by that value.
- The 32-bit size of a document's arrays: a dash on an array of 2^32 - 1 elements would wrap it.
- StackDiscipline.DocumentNeverUnderflows: says that only names are taken for names where no count wraps;
  where one does, it says how many values there are and not which.
- Printer.PrintThenParse: takes it that the text of a double is read back as that double.
