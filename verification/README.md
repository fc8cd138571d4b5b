# Verification model of the eelink server

This project models the two parts of the server whose behaviour is intricate, and proves what they promise.

**The JSON engine (`src/cJSON.c`).** Parsing, both printers, minifying, list and object editing, copying and deletion
are written as the code has them: a mutable, doubly linked tree of nodes, byte buffers filled through index variables,
a printer that measures and then fills, and one that appends to a growing buffer. Every routine is proved against a
specification on values, and the specifications are proved to have the properties that make the engine usable:
printing and parsing undo each other, every JSON document parses to what it denotes and exactly the texts of a stated
grammar are accepted, every failure is located at the first token that does not fit, the two printers agree byte for
byte and in their layout, minifying takes out white space and comments and keeps the meaning, escapes denote UTF-8,
numbers denote their decimal value, edits of the tree are edits of a sequence, and memory is freed exactly once.

- `Bytes`, `Json`: bytes, C strings, JSON values. `Bits`: the bit operators of C on non-negative integers.
- `ParseText`, `PrintText`: what the parser and the printers denote, as functions. `Numbers`, `Strings`, `Literals`,
  `Escapes`, `RoundTrip`, `Documents`, `Failures`, `Layout`: the theory of these, against grammars of their own.
  `MinifyText`, `Spacing`, `Lexing`: what minifying keeps, and why it keeps the value.
- `Nodes`, `Allocator`, `Lists`: nodes on the heap, the trees they hold and own, a ledger of allocated blocks.
- `Scanner`, `Transcode`, `Parser`, `Rendering`, `TreeText`, `Blocks`, `Printer`, `Requests`, `BufferedPrinter`,
  `Minifier`, `Deletion`, `Duplication`, `References`, `CStrings`, `ListEdits`, `Names`, `ObjectEdits`: the routines.
  `EndToEnd` composes printers and parser.

**The device protocol.** Frames are split out of reads and dispatched; logins bind connections to devices; devices go
online and offline; positions are filtered; apps send commands through the session of a device. What is sent over a run
is proved to be what the events call for, told without the state.

- `Codecs`, `Devices`, `Frames`, `Messages`: encodings, the position filter, the frame splitter and serializer,
  decoded messages. `Wire`: messages as bytes written from their fields.
- `Session`: one callback as one step on live connections, devices and the registry. `Runs`, `Positions`, `History`:
  what holds over every run.
- `Server`, `Callbacks`, `Commands`: the objects and handlers of the code, each callback proved to be such a step.

Conventions. A parser position is the rest of the text; past its last byte a C string reads as its terminator. A ghost
`Tree` describes what a node holds; `deep` says whether borrowed contents are included (readers) or only owned ones
(ownership). `type` is split into `kind` and `isReference`. Freeing a block scrambles it, so that a later use could
not be proved. In the protocol, addresses are numbers that are never used twice, and effects on the outside are
appended to a log.

Where the code does not do what one would expect, the model keeps the code, and the exact condition is proved; where
it is not plain that some input meets it, one is given:

- Minifying runs past the text for a lone string literal that is never closed, which the parser accepts
  (`MinifyText.MinifyKeepsMeaning`, `MinifyText.LoneQuote`).
- A block comment that begins `/*/` ends there (`Spacing.SlashCloses`).
- Parsing accepts numbers without digits behind the sign or the exponent mark and with a leading zero, control
  characters as blanks and in strings, any byte behind a backslash, and a lone string that is never closed; what is
  accepted is stated completely (`Documents.AcceptedExactly`).
- Parsing drops `\u0000`, unpaired surrogates and escapes that are not hexadecimal, and a high surrogate takes a
  following escape with it (`Literals.LiteralDenotes`).
- `cJSON_ReplaceItemInObject` leaks the name that the new item had: after a replacement everything allocated is owned
  exactly when it had none (`ObjectEdits.ReplaceItemInObject`, `ObjectEdits.LeftOver`, `ObjectEdits.ReplaceByNamed`).
- `cJSON_PrintBuffered` leaks its first buffer exactly for a null item (`BufferedPrinter.PrintBuffered`).
- Closing an old connection takes a device offline although a newer one is alive (`Runs.OnlineStep`,
  `Runs.LiveButOffline`).
- The length of a GPS message is compared before its bytes are swapped (`Devices.LengthCheck`,
  `Devices.LengthInstances`).
- A repeated position whose course is 0x8000 or more is saved again (`Devices.SavedPositions`, `Devices.RepeatSaved`).
- A report that repeats the position of an alarm is not saved (`Positions.AlarmMasks`, `Positions.RulesAgree`).
- The data of an operator response are taken two bytes too long (`Wire.OperatorTail`).
- The response to a text message announces 28 bytes and sends 7 (`Frames.WholeResponse`).
- A negative sequence number changes the command in the token (`Codecs.TokenRoundTrip`).
- A stored key that is not decimal comes back as another key (`Codecs.StringRebuilt`, `Codecs.LetterLost`).

`cJSON_AddItemToObject` frees the name of the item before it copies the new one. A detached item that is added again
under the pointer to its own name therefore has a freed string copied; `text !in Buffers(t.name)` in
`ObjectEdits.AddItemToObject` shuts out this case and no other.

## Model

| member | source | states |
|---|---|---|
| Numbers.NumberDenotation | src/cJSON.c:96-115 | a number of the grammar in section 6 of RFC 8259, or one of the lenient forms that the code takes, is consumed to its last byte and no further exactly when nothing behind it continues it (a dot does so in front of a digit only, a sign behind the exponent mark only); then sign, digits, scale and exponent make up exactly the decimal value it denotes |
| Numbers.NumberLiteral | src/cJSON.c:96-115 | conversely, whatever is consumed is such a literal, which the text behind it does not continue |
| Numbers.IntegerRoundTrip | src/cJSON.c:157-162 | the text that `%d` writes of any int reads back as that int, and the scan stops behind it, exactly when nothing behind it continues it |
| Numbers.LenientLiteral | src/cJSON.c:96-115 | the grammar of RFC 8259 is part of what the code takes |
| Scanner.ParseNumber | src/cJSON.c:96-115 | the index loops stop where the specified scan stops and leave its exact value in `valuedouble`, the value cast to int in `valueint` and the type in the item |
| Scanner.Truncated | src/cJSON.c:113 | the cast leaves the integer that is less than one away from the value and no further from zero, and an integral value as it is |
| Scanner.IntegerRead | src/cJSON.c:96-115 | so the `valueint` of any literal without fraction and exponent, leading zeros and a missing digit included, is the integer that its digits write, with its sign |
| Numbers.ScaledBy | src/cJSON.c:112 | the scale multiplies by a power of ten upwards and divides by one downwards |
| Scanner.ReadDigits | src/cJSON.c:102-103 | a digit loop consumes the maximal run of digits and accumulates the digits before it and these as one decimal |
| Scanner.ParseHex4 | src/cJSON.c:177-188 | four hex digits in either case give their value; any other character among them gives zero |
| Literals.HexRead | src/cJSON.c:177-188 | every number below 0x10000, written in four digits of which each may be small or capital, is read as that number |
| Literals.HexWritten | src/cJSON.c:177-188 | conversely, four hexadecimal digits write the number that is read, and any other character among the four makes it zero |
| Scanner.CountTurns | src/cJSON.c:197 | the first pass counts bytes and escapes and stops at the closing quote or the terminator, stepping over escaped bytes |
| Strings.PassesAgree | src/cJSON.c:197-243 | wherever the escapes are well formed both passes stop at the same terminator, and the second writes no more bytes than the first counted |
| Literals.LiteralDenotes | src/cJSON.c:203-243 | every literal made of pieces of section 7 of RFC 8259, together with the rule for dropped units, denotes the UTF-8 of its characters, up to the terminator: an escape that of the number its digits write, a pair that of the character it stands for |
| Literals.LiteralPieces | src/cJSON.c:203-243 | conversely, whatever the second pass accepts is such a literal: its pieces account for every byte read and for every byte written |
| Literals.Utf8RoundTrip | src/cJSON.c:229-237 | the bytes written for a character decode to that character (section 3 of RFC 3629), whatever follows, and all but the first are continuation bytes |
| Literals.CombineSurjective | src/cJSON.c:226 | every supplementary character is what its two surrogates (section 2.1 of RFC 2781) combine to |
| Transcode.CombineBitsValue | src/cJSON.c:226 | the masks, shift and or that combine two surrogates compute that pair's character |
| Transcode.WriteUtf8 | src/cJSON.c:229-237 | the fall-through switch, with its bit operators, stores exactly the UTF-8 encoding at the write position and nothing before it |
| Transcode.PutContinuation | src/cJSON.c:232-234 | one step of the switch stores `0x80` plus the low six bits and moves on to the rest of the character |
| Scanner.Transcribe | src/cJSON.c:203-243 | the second pass writes the denoted bytes into the block of the first pass, never beyond it, and stops at the terminator |
| Scanner.ParseString | src/cJSON.c:192-249 | success leaves a new C string of the denoted characters in the item and advances behind the closing quote, if there is one; failure changes nothing and points at the text |
| Strings.VerbatimAgrees | src/cJSON.c:256-267 | where the first loop finds nothing to escape, the escaped text would be the string itself |
| Rendering.CountEscaped | src/cJSON.c:278 | the counting loop arrives at exactly the length of the escaped text |
| Rendering.MeasureString | src/cJSON.c:256-280 | the block asked for is exactly the text of the string and its terminator, in both branches |
| Rendering.FillString | src/cJSON.c:263-306 | both branches write quote, escaped string, quote and terminator at the write position, and nothing before it |
| Rendering.FillByte | src/cJSON.c:288-302 | each byte is written as its shortest escape, `\u00xx` for the other control characters, or itself |
| Strings.StringRoundTrip | src/cJSON.c:192-307 | every NUL-free byte string is what `parse_string` reads from what `print_string_ptr` writes, whatever follows the literal |
| Escapes.ShortestEscape | src/cJSON.c:288-302 | no other spelling of a byte without control characters is shorter than what is written for it, and none is as long except with capital digits |
| Escapes.ShortestLiteral | src/cJSON.c:252-307 | so the printed literal is the shortest of all literals of its string that have no control character |
| Escapes.EscapeDenotes | src/cJSON.c:252-307 | and it is such a literal itself, with the string for its meaning |
| RoundTrip.ValueRoundTrip | src/cJSON.c:357-403 | a printed value at any depth, formatted or not, is parsed back exactly, leaving what follows, exactly when what follows does not continue a number |
| RoundTrip.DocumentRoundTrip | src/cJSON.c:323-343 | parsing the printed text of any value of 32-bit integers and NUL-free strings, to its terminator, gives the value back |
| RoundTrip.TextInjective | src/cJSON.c:342-343 | different values have different texts |
| Nodes.TypeTells | inc/cJSON.h:32-38 | the number in `type` says what the value of a node is |
| Bytes.Codes | src/cJSON.c:357-369 | the bytes that the text is compared with are the ASCII codes of the characters |
| Documents.DocumentDenotes | src/cJSON.c:357-369 | every JSON document (section 2 of RFC 8259: any nesting, any number and string literals, any blanks between tokens), lenient numbers included, is parsed to the value it denotes (dropped units apart, as `Literals.LiteralDenotes` has them), and the parser stops behind it, exactly when what follows does not continue a number |
| Documents.ValuePart | src/cJSON.c:357-369 | conversely, whatever parse_value accepts is the text of such a document with that value, in front of what it leaves; a string that runs to the end of the text is the one exception |
| Documents.AcceptedExactly | src/cJSON.c:323-339 | a text is accepted to its terminator exactly when it is blanks, such a document and blanks, or blanks and a string that is never closed |
| Documents.AcceptedText | src/cJSON.c:323-339 | and the value is what that text means |
| Documents.StartDenotes | src/cJSON.c:331-339 | without a terminator required: blanks, a JSON document and anything behind it are accepted with the value of the document and that rest left, exactly when the rest does not continue it |
| Documents.StartExactly | src/cJSON.c:331-339 | and only such texts are accepted, or blanks and a string that is never closed |
| Documents.AcceptedStart | src/cJSON.c:331-339 | with the value that the document denotes and the rest behind it |
| Failures.FailsExactly | src/cJSON.c:323-339 | the failing position: a text fails at a position exactly when what is before it is the start of a document, at any depth of arrays and objects, and no value, name or separator that could stand there starts at it; with the terminator required also behind a whole document |
| Failures.Fails | src/cJSON.c:357-547 | any such start of a value, in front of a byte that does not fit, leaves `ep` at that byte |
| Failures.FailPart | src/cJSON.c:357-547 | conversely, wherever a value fails its text up to there is such a start |
| Documents.TextDenotes | src/cJSON.c:323-339 | a text of blanks, a JSON document and blanks is accepted to its terminator with the value that the document denotes |
| EndToEnd.PrintAndParse | src/cJSON.c:323-353 | on the heap: a tree printed by either printer and parsed gives a new, whole tree of the same value, and the first tree is unchanged |
| Allocator.Heap.NewItem | src/cJSON.c:73-78 | a new node is zeroed and entered in the ledger of allocated blocks |
| CStrings.Strdup | src/cJSON.c:49-58 | a fresh block with the same C string |
| Parser.Parser.ParseValue | src/cJSON.c:357-369 | the recursive parser on nodes reports exactly what the specified parser says: value and end, or the failing position in `ep`; the tree built so far is whole and all that was allocated, and every node has the `valueint` of its kind: a number cast to int, one for true, zero for the others |
| Parser.Parser.ParseArray | src/cJSON.c:406-431 | items are parsed, each into a node linked behind the last, so that the tree denotes the parsed array, on failure too |
| Parser.Parser.ParseObject | src/cJSON.c:514-547 | the same for members, whose name moves from `valuestring` to `string` |
| Parser.Parser.ParseWithOpts | src/cJSON.c:323-337 | success, with or without the terminator required, gives a whole tree of the parsed value and the end of its text; failure frees every node and string that was allocated, once, and leaves `ep` at the failing position |
| Parser.Parse | src/cJSON.c:323-339 | the same for a text in memory; a null pointer is refused with nothing left allocated |
| Deletion.Delete | src/cJSON.c:81-93 | deletes a `next` chain: exactly the nodes and strings that it owns leave the ledger, each once, and nothing behind a reference is touched |
| Duplication.Duplicate | src/cJSON.c:708-733 | a copy with the same contents node for node, doubly linked at every level, made of fresh nodes and strings only; the source is not modified, and null gives null |
| Duplication.CopyMeansTheSame | src/cJSON.c:708-733 | a recursive copy has the value of its source and owns everything it reaches, the reference flag cleared everywhere |
| Duplication.CopyHolds | src/cJSON.c:714-722 | what the new node holds when its children are not copied, too: type without the flag, both numbers, both strings where there were any, and no child |
| References.CreateReference | src/cJSON.c:668 | a reference has the value of its item, no name and no links, and owns nothing but its own node |
| References.DeleteReference | src/cJSON.c:81-93 | deleting a reference leaves what it borrowed valid and allocated |
| Printer.ItemsFit | src/cJSON.c:437-481 | the estimate of `print_array`, to which `len` adds 5, is longer than the composed text by exactly a byte for each item and the separator that the last one does not have, at every depth |
| Printer.MembersFit | src/cJSON.c:553-624 | the estimate of `print_object`, to which `len` adds 7 and the depth, is longer than the composed text by exactly the comma that the last member does not have |
| Printer.CollectEntries | src/cJSON.c:471-483 | the collecting loop leaves the text of every item in order, each in a block of its own, and adds up the estimate |
| Printer.ComposeArray | src/cJSON.c:498-508 | copying the entries into a block of the estimated size yields the text of the array, inside the block; every entry and the pointer array are freed |
| Printer.CollectMembers | src/cJSON.c:611-626 | the same for names and values of members |
| Printer.ComposeObject | src/cJSON.c:640-655 | the same for the text of an object, with its indentation, its names and values |
| Printer.PrintNumber | src/cJSON.c:147-163 | a number that is an int is rendered as its decimal digits inside the block that is asked for |
| Printer.PrintArray | src/cJSON.c:434-511 | a fresh C string with the text of the array at this depth |
| Printer.PrintObject | src/cJSON.c:550-658 | a fresh C string with the text of the object, one tab short of its depth when it is empty |
| Blocks.Pop | src/cJSON.c:505 | frees one entry, once, and leaves the others as they are |
| Printer.Print | src/cJSON.c:342-343 | every tree with printable contents is rendered as the text of its value, and of all that was allocated on the way only this text stays; a null item gives null |
| TreeText.TextNulFree | src/cJSON.c:503 | no text contains a terminator, so that `strlen` measures all of it |
| Layout.PrettyText | src/cJSON.c:434-658 | the layout: the unformatted text of a value has no blank outside its strings, and the formatted one is that text put through a formatter of tokens (a line and its tabs for each member, a tab behind each colon, a space behind each comma between items), inside any open brackets |
| Layout.MinifyPrinted | src/cJSON.c:735-750 | minifying the formatted or the unformatted text of a value gives the unformatted one |
| Layout.ShrinkPretty | src/cJSON.c:735-750 | for any text without blanks and comments outside its literals, whether JSON or not, minifying undoes the formatter |
| Bits.Pow2gtLeast | src/cJSON.c:117 | up to 2^32, beyond what an int holds, the shift cascade yields the least power of two that is not below its argument |
| Requests.PeakBounds | src/cJSON.c:434-607 | the furthest byte that printing a value asks the buffer for, request by request, lies one to twenty bytes behind its text |
| Requests.PeakExact | src/cJSON.c:149-607 | exactly one byte behind it, unless the value holds a number other than zero, for which 21 bytes are asked, or in formatted text an empty object inside another value |
| BufferedPrinter.PrintBuffer.Ensure | src/cJSON.c:121-136 | makes the requested room behind the offset, keeps all earlier bytes, and reallocates only when needed, to the least sufficient power of two; the old block is freed |
| BufferedPrinter.PrintBuffer.Grow | src/cJSON.c:128-135 | the bytes copied so far, this copy included, stay below the length of the new buffer |
| BufferedPrinter.PrintBuffer.Update | src/cJSON.c:138-144 | the new offset is the end of the text in the buffer, wherever inside it the offset stood |
| BufferedPrinter.PrintBuffer.PrintArray | src/cJSON.c:434-468 | appends the text of the array behind what is written, which is kept |
| BufferedPrinter.PrintBuffer.PrintObject | src/cJSON.c:550-607 | appends the text of the object; a formatted object with members returns its depth as an offset, because line 604 reuses the variable |
| BufferedPrinter.PrintBuffer.PrintMember | src/cJSON.c:579-602 | one turn of the member loop appends exactly this member and its separator |
| BufferedPrinter.PrintBuffer.PrintValue | src/cJSON.c:372-388 | the recursion: every store stays inside the buffer, earlier bytes stay, the text is appended and terminated, and the returned offset is as the code leaves it |
| BufferedPrinter.PrintBuffered | src/cJSON.c:345-353 | from any prebuffer the result is the start of the final buffer and holds the same text as the unbuffered printer; that buffer is the only block left; after any growth the bytes copied in all are fewer than its length; a null item gives null and leaves the first buffer allocated |
| MinifyText.MinifyKeepsMeaning | src/cJSON.c:735-750 | for every text the parser accepts to its end: minifying stays inside it exactly when it is not a lone string literal that is never closed; the result then has the same value, and minifying it again changes nothing |
| MinifyText.LoneQuote | src/cJSON.c:735-750 | an instance of the exception: a quote on its own is accepted as an empty string, and minifying it runs past it |
| Lexing.MinifyExactly | src/cJSON.c:735-750 | of all texts, JSON or not, minifying stays inside exactly those that consist of white space, line comments, closed block comments, closed literals and other bytes |
| Lexing.LexemesShrink | src/cJSON.c:735-750 | and leaves their literals and other bytes as they are, in order, and nothing else |
| MinifyText.ShrinkString | src/cJSON.c:746 | a closed literal is kept verbatim, and reads the same wherever it stands |
| MinifyText.ShrinkBlanks | src/cJSON.c:740-743 | of the blanks between tokens only control characters that are no JSON white space are kept |
| MinifyText.NumberAgain | src/cJSON.c:96-115 | the bytes consumed as a number, lenient forms included, read as the same number in front of anything that can follow a value |
| Spacing.ShrinkDocument | src/cJSON.c:735-750 | whatever follows a JSON document, minifying turns it into the same tokens without the white space and the comments between them |
| Spacing.MinifyDocument | src/cJSON.c:735-750 | a JSON document spaced in any way with white space, line comments and block comments is minified to exactly its tokens, which parse to what the document denotes |
| Spacing.ShrinkBlock | src/cJSON.c:745 | a block comment that contains no star and slash and does not begin with a slash vanishes, whatever follows |
| Spacing.SlashCloses | src/cJSON.c:745 | where it begins with a slash it ends with that slash: what follows is text again, as in the instance given |
| Minifier.Minify | src/cJSON.c:735-750 | the in-place rewrite leaves exactly the specified text, its write position never passing its read position |
| Minifier.CopyLiteral | src/cJSON.c:746 | a literal is moved byte for byte with both quotes |
| Minifier.SkipComment | src/cJSON.c:745 | a block comment is skipped to behind the first star and slash that follow its opening slash |
| ListEdits.Seek | src/cJSON.c:662 | finds the child at an index; negative indices mean the first, large ones none |
| ListEdits.GetArraySize | src/cJSON.c:661 | the number of children |
| ListEdits.EditsInside | src/cJSON.c:677-688 | what inserting, removing and replacing at an index inside the list make of every position |
| ListEdits.EditsOutside | src/cJSON.c:677-688 | a negative index means the first child; past the end inserting appends and the others change nothing |
| ListEdits.AddItemToArray | src/cJSON.c:671 | the child list becomes the old one with the item at its end, doubly linked with null ends, exactly when the links that are not written were null; a null item changes nothing |
| ListEdits.InsertItemInArray | src/cJSON.c:684-685 | insertion in front of the child at the index, whatever the links of the new item were; at the end when there is none, and then a list again exactly when adding makes one |
| ListEdits.DetachItemFromArray | src/cJSON.c:677-678 | removal of the child at the index, which is left without links; nothing when there is none |
| ListEdits.Relink | src/cJSON.c:686-688 | the new item takes the place of the child at the index, which is left without links; past the end no link changes, those of the new item included |
| ListEdits.Reinsert | src/cJSON.c:677-685 | detaching a child and inserting it at the same index restores every link |
| ListEdits.InsertDetach | src/cJSON.c:677-685 | inserting and then detaching at one index restores the list exactly when the index is not beyond its end |
| ListEdits.AddTree | src/cJSON.c:671 | on trees: the family of children stays valid and separate with the new one at its end |
| ListEdits.InsertTree | src/cJSON.c:684-685 | the same for insertion |
| ListEdits.DetachTree | src/cJSON.c:677-678 | detaching leaves every child, the detached one included, valid |
| ListEdits.DeleteItemFromArray | src/cJSON.c:679 | exactly what the removed child owns is freed, and the others stay a valid family |
| ListEdits.ReplaceItemInArray | src/cJSON.c:686-688 | the new tree takes the place of the old one, of which exactly what it owns is freed; past the end nothing happens, and the new tree stays whole and apart with its links as they were |
| Names.Strcasecmp | src/cJSON.c:39-44 | the loop computes the specified difference, null pointers included |
| Names.EqualUpToCase | src/cJSON.c:39-44 | strings compare equal exactly when they have the same length and at every position the same byte, or a capital and a small letter of the alphabet in either order |
| Names.DifferenceAt | src/cJSON.c:39-44 | otherwise the result is the difference of the bytes at the first position where they differ, capitals taken as small letters and the end of a string as zero |
| Names.SameName | src/cJSON.c:39-44 | with null pointers: zero exactly for such strings or the same null pointer; this is an equivalence |
| Names.CompareOrders | src/cJSON.c:39-44 | on strings the sign of the result is a total order |
| Names.GetObjectItem | src/cJSON.c:663 | the first child whose name has the same letters up to case, or null when there is none |
| Names.MatchByKey | src/cJSON.c:663 | no child before it has such a name |
| Names.CaseVariant | src/cJSON.c:663 | names of the same letters up to case find the same child |
| Names.ReplaceLookup | src/cJSON.c:689 | after a replacement every case variant finds the new item and every other name finds what it found before |
| Names.DetachLookup | src/cJSON.c:680 | after a detachment the name finds the next child that has it, if any |
| Names.DetachOthers | src/cJSON.c:680 | and every other name finds the child it found before |
| Names.AddLookup | src/cJSON.c:672 | an added member is found under its name exactly when no earlier member has that name |
| ObjectEdits.AddItemToObject | src/cJSON.c:672 | the item becomes the last member under a copy of the name; its old name is freed |
| ObjectEdits.DetachItemFromObject | src/cJSON.c:680 | detaches the same first match that a lookup finds |
| ObjectEdits.DeleteItemFromObject | src/cJSON.c:681 | deletes the first match, exactly what it owns |
| ObjectEdits.ReplaceItemInObject | src/cJSON.c:689 | the first match is deleted and replaced by the new item under a copy of the name; its former name stays allocated, so that everything allocated is accounted for exactly when it had none; without a match nothing changes, the new item included |
| ObjectEdits.LeftOver | src/cJSON.c:689 | the ledger after such a replacement: what others own, the children, and the former name; nothing is left over exactly when there was no name |
| ObjectEdits.ReplaceByNamed | src/cJSON.c:689 | an instance: the only member is replaced by an item that had a name, whose text then belongs to nobody |
| Frames.SplitConcat | src/msg_sch_mc.c:86-103 | signed frames followed by anything that is not a complete signed frame are split into exactly these frames; the status tells whether a complete unsigned one follows |
| Frames.SplitMaximal | src/msg_sch_mc.c:86-103 | every input is the dispatched frames followed by such a rest: the run is maximal |
| Frames.SplitUnique | src/msg_sch_mc.c:86-103 | no other way of cutting the input into signed frames goes as far |
| Frames.AllocMsg | src/msg_mc.c:20-67 | signature, command and length, cut to sixteen bits, in the places where the splitter reads them |
| Frames.BuiltIsFrame | src/msg_mc.c:38-67 | what `alloc_msg` builds is a frame exactly when its length fits the length field |
| Frames.HandledInvertsAlloc | src/msg_sch_mc.c:75-104 | any messages of `alloc_msg` followed by an incomplete tail are dispatched once each and in order, and the tail is ignored |
| Frames.HandledConcat | src/msg_sch_mc.c:75-104 | a read shorter than seven bytes is refused whole, even if it is a frame of five or six; any other is split as above |
| Frames.AllocRspMsg | src/msg_mc.c:69-102 | responses exist for four commands, in the size of the table, with the request's sequence bytes |
| Frames.WholeResponse | src/msg_proc_mc.c:314-326 | the seven bytes sent as a response are a frame exactly when the response has the size of a header, which the one for text messages has not |
| Devices.LengthCheck | src/msg_proc_mc.c:114 | the check on the unswapped length refuses a message exactly when its length is a multiple of 256 below 3072 |
| Devices.LengthInstances | src/msg_proc_mc.c:114 | both sides of that condition occur: length 256 is refused and length 1 is not |
| Devices.RepeatRecognised | src/msg_proc_mc.c:151-154 | the comparison with the last position recognises a repeat exactly when the course is below 0x8000 |
| Devices.EveryFixIsPushed | src/msg_proc_mc.c:142-179 | over any run of GPS messages the app gets every accepted fix once and in order, and the device holds the last of them |
| Devices.SavedPositions | src/msg_proc_mc.c:142-179 | the saved positions are the accepted fixes without consecutive repeats exactly when no repeated fix has a course of 0x8000 or more; each such repeat is saved once more |
| Devices.RepeatSaved | src/msg_proc_mc.c:142-179 | an instance: a fix with course -1 that is reported again, with the course 0xFFFF, is saved again |
| Positions.PositionsOverRuns | src/msg_proc_mc.c:104-277 | over any run of the whole protocol and for every IMEI: the position held is the last one that a report, an alarm or a rebuild set, the app gets every accepted report once and in order, and the reports saved are those that differ from the position held or have a course of 0x8000 or more |
| Positions.RulesAgree | src/msg_proc_mc.c:151-154 | this saves every report that differs from the report before it, and no other, exactly when no report repeats the position of an alarm and none is saved again for its course or an alarm in between; in any case the numbers add up |
| Positions.AlarmMasks | src/msg_proc_mc.c:222-226 | from any state: a located report of the position that an alarm has just set, with a course below 0x8000, is pushed and not saved |
| Codecs.GetImeiString | src/object_mc.c:217-234 | two hex digits for every byte, and a terminator; a fixed text for a null pointer |
| Codecs.GetImei | src/object_mc.c:236-253 | a byte for every two characters, each counting as its decimal digit or zero |
| Codecs.KeyDigits | src/object_mc.c:217-234 | the high half of each byte comes first, in small digits |
| Codecs.PackedDigits | src/object_mc.c:236-253 | of two characters the first makes the high half; whatever is no decimal digit counts as zero |
| Codecs.StringRebuilt | src/object_mc.c:217-253 | a sixteen-character key is the text of the IMEI packed from it exactly when it is decimal |
| Codecs.LetterLost | src/object_mc.c:217-253 | an instance: the key 111111111111111a comes back with a zero in the place of the letter |
| Codecs.ImeiRebuilt | src/object_mc.c:217-253 | a packed IMEI is what its text packs to exactly when all its nibbles are decimal |
| Codecs.ImeiStringInjective | src/object_mc.c:164-176 | different IMEIs have different registry keys |
| Codecs.TokenRoundTrip | src/msg_proc_app.c:175-177 | the sequence number always survives in the token, the command exactly when the sequence number is not negative; otherwise it comes back one less |
| Session.SafeStep | src/msg_proc_mc.c:48-102 | every callback keeps: a device is online iff it has a session; the session is a live connection bound to that very device; the registry knows each device under its own IMEI |
| Session.SafeBind | src/msg_proc_mc.c:53-87 | the lookup or creation in a login keeps this |
| Session.SafeClose | src/server_mc.c:62-115 | so does the end of a connection |
| Session.SafeReload | src/leancloud_req.c:155-170 | so does a device rebuilt at start-up, even one that replaces another |
| Runs.OnlineStep | src/msg_proc_mc.c:86-87 | a device is online after a step iff it logged in or reported in that step, or was online and no connection of it ended |
| Runs.OnlineExactly | src/msg_proc_mc.c:48-135 | over any run a device is online iff some event touched it last without an end of any of its connections since, and its session is the connection of that event |
| Runs.BindingKept | src/msg_proc_mc.c:53-80 | over any run a bound connection stays bound to its device while it lives, and closed ones never come back |
| Runs.EveryCommandIsRouted | src/msg_proc_app.c:131-183 | over any run every command ever sent was asked for by an app, and went on a live connection bound to the device registered under the IMEI it named |
| Runs.StepLog | src/msg_proc_mc.c:24-46 | responses only ever go to the live connection that asked; an app command sends one thing, which is a request to a device, iff the device is registered and online |
| Runs.CommandIsAnswered | src/msg_proc_mc.c:336-344 | a device that answers with the token it got is heard by the app with the command's sequence number, and with its code iff that number is not negative |
| Runs.LiveButOffline | src/server_mc.c:98-108 | a run after which a live connection is bound to a device that is offline: an older connection of it was closed |
| History.LogOfRun | src/msg_proc_mc.c:48-357 | over any run of the whole protocol, with everything told from the events alone (who is connected, which IMEI each connection has logged in with, which are known, which position, cell and time each has reported, where each was heard last): the server sends exactly what the events call for, byte for byte, in order, and nothing else |
| History.AnswersOverRuns | src/msg_proc_mc.c:89-326 | what is written to a connection are the answers to its messages, in order and once each: logins, pings and text messages always, alarms and status messages after the login, with signature, command, announced length and the two sequence bytes of the request |
| History.SavedOnce | src/msg_proc_mc.c:60-76 | an IMEI is saved at most once, by the first login with it before which it was not known |
| History.StepSays | src/msg_proc_mc.c:48-357 | step by step: responses, subscriptions, saved IMEIs, pushed and saved positions, alarms exactly when located, commands on the connection where the device was heard last |
| History.AgreesStep | src/msg_proc_mc.c:48-277 | step by step: the state knows what the events tell |
| Server.DeviceObject.FilterGps | src/msg_proc_mc.c:142-179 | the branches on fields compute the specified filter |
| Server.ServerState.Accept | src/server_mc.c:118-155 | a new unbound connection: a step of the protocol |
| Server.ServerState.Login | src/msg_proc_mc.c:48-102 | the handler on objects refines the login step: binding, session, response and subscription |
| Server.ServerState.BindTo | src/msg_proc_mc.c:53-80 | the device a login ends up with: its own, the registered one, or a new registered one |
| Server.ServerState.Gps | src/msg_proc_mc.c:104-180 | refines the GPS step; the return value tells refused messages |
| Server.ServerState.Alarm | src/msg_proc_mc.c:199-277 | refines the alarm step: position, response, and a push iff the position is located |
| Server.ServerState.Operator | src/msg_proc_mc.c:328-357 | refines the step that turns a device's answer into an app response |
| Server.ServerState.MsgSend | src/msg_proc_mc.c:24-46 | sends on a live context; without one it reports an error |
| Server.ServerState.HandleEvent | src/server_mc.c:62-115 | connected events do nothing; timeouts, end of file and errors are close steps |
| Server.ServerState.CloseConn | src/server_mc.c:75-83 | refines the close step: no device keeps a session on the freed context |
| Callbacks.FindProc | src/msg_sch_mc.c:60-70 | the table search finds an entry exactly for the eight commands |
| Callbacks.Refused | src/msg_sch_mc.c:55-73 | a refused message changes nothing and is not answered; which messages are refused |
| Callbacks.HandleOneMsg | src/msg_sch_mc.c:55-73 | dispatching a message is the step of the request that it encodes, and returns what its handler returns; unknown commands give -1 |
| Callbacks.HandleMcMsg | src/msg_sch_mc.c:75-104 | a read dispatches exactly the frames of the splitter, in order, each as one step, and returns its status; bytes behind the read do not decide which |
| Callbacks.ReadCb | src/server_mc.c:40-55 | reads go on until one brings nothing, and their effects compose |
| Messages.UnswappedLength | src/msg_proc_mc.c:114 | the length field that the GPS handler compares is the frame's length with its bytes exchanged |
| Wire.MessageRead | src/msg_mc.h:32-174 | for login, GPS, ping, alarm, status, text, operator and data messages, written as bytes from their fields in the order of the structs: dispatching the memory that holds them asks for exactly these fields, numbers in network order, the token in that of the host, whatever the length field says and whatever follows |
| Wire.OtherCommand | src/msg_sch_mc.c:55-73 | any other command asks for nothing |
| Wire.OperatorTail | src/msg_proc_mc.c:344 | of an operator response the code takes two bytes more than were sent |
| Wire.MessageIsFrame | src/msg_sch_mc.c:86-101 | a message that announces its own length is a frame |
| Wire.AppRead | src/msg_proc_app.c:131-183 | a message of the app, written as bytes from its fields, is the command of these fields for the device that its topic names, when the name has at most sixteen characters |
| Wire.AppWritten | src/msg_proc_app.c:131-183 | conversely, only such messages are commands |
| Wire.CommandWritten | src/msg_proc_app.c:20-40 | the device gets an operator message of type one with the token and the data |
| Commands.PackCommand | src/msg_proc_app.c:28-34 | the operator request carries type, token and data where the device reads them |
| Commands.CommandFrame | src/msg_proc_app.c:28-34 | it is a frame exactly when its data is shorter than 65529 bytes |
| Commands.SendRawData | src/msg_proc_app.c:20-40 | sends nothing to an offline device, and one request on the session otherwise |
| Commands.HandleApp2devMsg | src/msg_proc_app.c:131-183 | a well-formed message for a registered IMEI is a command step; everything else, an empty or short payload included, is refused without effect |
| Commands.Reload | src/leancloud_req.c:155-170 | a stored device is rebuilt and registered under the text of its IMEI: a reload step |

## Left out

- Numbers are exact: `valuedouble` is a real, so that rounding of doubles, the `%f`, `%e` and `%.0f` branches of `print_number` and conversions of doubles beyond an int are not modelled.
- The printers are modelled on trees whose numbers are ints in both fields, whose strings are present and whose members have names; `print_string_ptr` with a null string, where the code reads through it, is not.
- Escapes cut short by a quote, a backslash or the end of the text, where the code reads past the literal, are a precondition of the parser; any other four characters after `\u` are modelled.
- Allocation never fails, so the failure branches of `cJSON_Duplicate`, of the printers and of the parser are absent; a NULL from `malloc` for the prebuffer is absent with them.
- BufferedPrinter.PrintBuffered: the furthest byte asked for (`Requests.Peak`, at most 20 bytes behind the text) lies within 2^30 bytes or within the prebuffer, so that the int sizes of `ensure` do not overflow.
- ObjectEdits.AddItemToObject: a name pointer that is the item's own, which the code frees and then copies, is excluded by a precondition.
- The exponent, the nesting depth and the lengths of the unbuffered printer are unbounded integers; stack depth is not modelled.
- `cJSON_StringIsConst` and `cJSON_AddItemToObjectCS`: the flag is not honoured everywhere, so ownership is stated without it.
- `cJSON_Create*`, `cJSON_InitHooks` and the reference variants of adding, which only combine modelled routines.
- Parser.Parser.ParseWithOpts: the parser reads the text as a value; `Parser.Parse` takes it out of memory first, and a text that changes while it is parsed is not modelled.
- Messages.UnswappedLength: the handlers read their fields wherever these lie behind the start of a frame, as the code does; whether the frame is long enough is checked by GPS handling alone.
- Callbacks.HandleMcMsg: an operator response on a bound connection whose length is below its fixed part, where the code copies a negative length, is excluded by a precondition.
- The bytes and topics of what is published to the app (`dev2app`), pushed to Yunba and sent to the cloud: the log records the fields.
- Language, locale, password and DID of a device, the creation of Yeelink devices, and what the cloud, Yunba and MQTT libraries do with what they are given.
- Commands.HandleApp2devMsg: the topic has a slash behind the IMEI, as the subscribed topics have; a payload for a device that ends inside a field the code looks at is excluded by a precondition.
- The bytes of an operator request that `alloc_msg` leaves unset; the log records the token and the data that a device reads out of it.
- Callbacks are atomic steps; threads of libevent and mosquitto, timers, sockets, logging, configuration and the storage file are absent.
- `mc_obj_del`, `mc_print_online`, the Gizwits code and the static buffers that `get_IMEI` and `get_IMEI_STRING` return.
