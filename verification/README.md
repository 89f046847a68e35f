# Verified model of adb-termux

Adb-termux runs commands on a phone over TLS and HTTP. This project models its most stateful code
in Dafny and proves what that code keeps, for every input and every run:

* **The JSON engine** (`src/cJSON.c`). The recursive-descent parser over a moving offset and depth
  (`JsonReader`) is proved equal to a pure parser (`JsonParser`, `JsonString`, `Utf8`, `JsonNumber`).
  `JsonRelaxed` states the language it accepts as a grammar, and `JsonExact` proves both directions.
  `JsonGrammar` is the grammar of RFC 8259, and `JsonAccepts` proves that every text of it whose numbers
  are C ints is one of the relaxed grammar, with the same value. The printer into a growing or fixed byte buffer (`JsonWriter`) is proved
  equal to a pure printer (`JsonPrinter`). `JsonRoundTrip` proves that what is printed is such a text,
  so that printing and parsing undo each other up to the nesting limit of 1000 and no further. `Minify`
  treats the in-place minifier, `Siblings` the doubly linked child lists, `Duplicate` the deep copy on
  the heap, and `JsonCompare` the comparison.
* **The duplex pump** (`exec_run_pipe` in `src/executor.c`). `BodyReader` is the five-state incremental
  reader of a request body: chunked coding of RFC 9112 section 7.1, or a Content-Length. `PumpModel` is
  the event loop as a state machine whose environment chooses what poll, SSL_read, SSL_write, the pipes
  and waitpid report; `PumpRuns` proves what all its runs keep, and `StdinBound` which of them respect
  the stdin buffer; `ExecPump` is the loop as it runs, with fixed arrays, memmove and flags, proved to
  make the steps of the model. `StreamFraming` is the chunk writers of `src/handler.c`.
* **Two codec pairs.** `WebSocket` is the framer and the streaming deframer of `test.js` (RFC 6455
  section 5.2). `PipeQuery` is the query builder of `adb-termux.sh` against the query parser and
  decoder in `src/handler.c` (RFC 3986 section 2.1, with `+` for a blank).

Bytes are the integers 0 to 255 (`Bytes.byte`), a buffer is a `seq<byte>` or an `array<byte>`, and
C's conversions and limits are written out. Code that changes things in place is a class or a method
with loops; its contract equates the new state with a pure function, and the theorems are about
those functions.

## What the proofs found

* **Exact print limit.** `cJSON_PrintPreallocated` succeeds exactly when the length is at least the
  text plus two bytes and the nesting is within the limit. The header (`src/cJSON.h:168`) advises five
  bytes. The same two bytes decide at every inner step, so the tree's shape and the format do not matter.
* **A zero size guess.** Without a realloc hook, `ensure` copies one byte more than was written
  (`src/cJSON.c:566`). For `cJSON_PrintBuffered` with a guess of zero that byte lies past the
  allocation; `JsonWriter.PrintBuffered` states that this is the only such case.
* **What is accepted.** A buffer is accepted with a value if and only if it is, or without the
  terminator check begins with, a text of that value in the relaxed grammar, nested at most 1000 deep
  (`JsonExact.ExactDocument`, `JsonExact.ExactText`). Beyond RFC 8259 it takes any byte up to 32 for
  white space, numerals with leading zeros or a bare fraction, raw control bytes, and malformed `\u`
  escapes as code 0, which may even swallow the backslash of an escaped one (`JsonExact.QuoteTaken`).
* **A NUL ends a string.** `\u0000` is legal, and its value holds a NUL. What a C program sees of an
  accepted tree is its value if and only if no character is written `\u0000`
  (`JsonAccepts.SeenOfDocument`).
* **A spare byte.** In `parse_string` the second pass and its terminator always leave at least one
  byte of the allocation unused, also when a malformed `\u` escape has put the two passes out of step.
* **Minify is not quite a formatter.** `minify_string` takes every backslash-quote pair for an escaped
  quote, so a string that ends with a backslash runs on. Minifying formatted text gives the unformatted
  text if and only if every string and key that ends with a backslash is followed by closing brackets
  of arrays only (`Minify.Harmless`); `Minify.MinifyKeepsABlank` is a failing tree.
* **Appending needs a NULL `next`.** `add_item_to_array` clears the item's own `next` only when the
  list is empty. `Siblings.AddItemToArray` and `Siblings.InsertItemInArray` give the exact condition
  for the list to stay well linked; inserting in front of a child and replacing need nothing.
  `Siblings.AppendWithoutDetaching` is an instance.
* **An array in itself.** Only `add_item_to_array` tests for the array itself. Inserting an array into
  itself at an index in range, or replacing a child by its parent, succeeds and leaves a well-linked list
  that the array is a member of (`Siblings.InsertIntoItself`).
* **Comparison and repeated keys.** `cJSON_Compare` is symmetric and transitive in any case. A tree is
  equal to a copy of itself if and only if members of one object that share a key have equal values
  (`JsonCompare.Reflexive`); `JsonCompare.DuplicateKeysBreakReflexivity` is a failing tree.
* **Commands that do not arrive.** `urlencode` hands its result over through `echo`, which treats
  words such as `-n`, `-e` and `-nE` as options (`PipeQuery.DashNIsLost`). And it encodes characters,
  not bytes: in a UTF-8 locale a character above 127 is spelled by its code point, which the server
  takes for one byte (`PipeQuery.AccentIsMangled`). A command that is not empty arrives as it was if
  and only if all its characters are ASCII, `echo` does not take it for options, and it has at most
  4095 bytes (`PipeQuery.CommandSurvives`).
* **Long size lines.** The reader keeps 31 characters of a chunk-size line, while RFC 9112 allows any
  number of leading zeros. A chunk decodes to its data if and only if its line has at most 31 digits
  (`BodyReader.ChunkSurvives`); if only zeros are kept, the body ends there (`BodyReader.CutOff`,
  `BodyReader.FiveBytesLost`).
* **Chunk sizes are signed.** A size line is read with `strtol` and the count is cut to `int`, so a
  negative count can ask for more than the free space of the 65536-byte stdin buffer.
  `StdinBound.BoundBroken` is a run that overfills it. It cannot happen when no size line gives a
  negative count whose `int` conversion is positive (`StdinBound.BufferBound`).
  `StdinBound.NegativeCount` gives the exact condition for the others in terms of the state, and
  `StdinBound.CountAfterChunks` in terms of the stream: behind legible chunks with `D` bytes of data, the
  conversion is at most what `D` bytes leave free, or at most 1. Past the bound the C program has
  no defined behaviour; what `PumpRuns` says about such runs is about the model, whose buffer goes on.

## Model

| member | source | states |
|---|---|---|
| JsonRoundTrip.ParseOfText | src/cJSON.c:1368-1896 | wherever the printed text of a tree stands in a buffer, formatted or not, parse_value returns that tree and stops exactly at the end if the containers fit under the limit, and refuses it otherwise |
| JsonRoundTrip.RoundTrip | src/cJSON.c:1147-1224 | parsing a printed document gives the tree back exactly when its nesting is at most 1000, for both formats, with or without the terminator check, and ends on the terminator |
| JsonRoundTrip.ParseQuoted | src/cJSON.c:824-1073 | parsing a printed literal returns the original string and stops just past the closing quote |
| JsonRoundTrip.SpellingOfText | src/cJSON.c:1423-1896 | what print_value prints, formatted or not, is a legal RFC 8259 text of the tree |
| JsonRoundTrip.QuotedIsStringText | src/cJSON.c:954-1073 | what print_string_ptr prints is a legal string whose characters are the bytes printed |
| JsonExact.ExactDocument | src/cJSON.c:1147-1224 | with the terminator check, a buffer is accepted with a value if and only if it is a document of the relaxed grammar with that value, nested at most 1000 deep |
| JsonExact.ExactText | src/cJSON.c:1147-1229 | without the check, as cJSON_Parse has it, if and only if it begins with a text of that value, a number being as long as it can be |
| JsonExact.ExactValue | src/cJSON.c:1368-1420 | wherever nothing runs a text on, parse_value returns a value and an end if and only if the bytes between spell that value and it fits under the nesting limit |
| JsonExact.Accepted | src/cJSON.c:1368-1420 | whatever parse_value accepts, in any buffer, is spelled by exactly the bytes it passed |
| JsonExact.ArrayAccepted | src/cJSON.c:1497-1592 | the same for parse_array |
| JsonExact.ItemsAccepted | src/cJSON.c:1530-1569 | the elements its loop reads are spelled, with their commas and white space, up to the closing bracket |
| JsonExact.PaddedAccepted | src/cJSON.c:1555-1562 | white space, a value and white space |
| JsonExact.ObjectAccepted | src/cJSON.c:1662-1777 | the same for parse_object |
| JsonExact.MembersAccepted | src/cJSON.c:1695-1755 | the members its loop reads are spelled up to the closing brace |
| JsonExact.MemberAccepted | src/cJSON.c:1718-1746 | key, colon and value |
| JsonRelaxed.StringAccepted | src/cJSON.c:824-951 | an accepted string runs to the first quote no backslash hides, and its bytes are those of the characters spelled |
| JsonRelaxed.ScanIsUnbroken | src/cJSON.c:837-859 | the first pass ends on the first quote that no backslash hides, and only there |
| JsonRelaxed.DecodedPieces | src/cJSON.c:872-925 | whatever the second pass writes is spelled by characters, escapes that reach over the closing quote included |
| JsonRelaxed.StepPiece | src/cJSON.c:874-924 | what one turn of the second pass took is one character |
| JsonRelaxed.NumberAccepted | src/cJSON.c:307-395 | what parse_number accepts is a numeral that strtod reads completely |
| JsonRelaxed.NumberIsLongest | src/cJSON.c:307-395 | and there is no longer one |
| JsonRelaxed.StrtodPrefix | src/cJSON.c:378-384 | strtod reads what it consumed of a text the same without the rest |
| JsonRelaxed.StrtodLongest | src/cJSON.c:378-384 | it consumes the longest numeral in front |
| JsonExact.SpelledRead | src/cJSON.c:1368-1420 | every spelled value that nothing runs on is read to its end, or refused by the nesting limit |
| JsonExact.ArrayRead | src/cJSON.c:1497-1592 | the same for arrays |
| JsonExact.ItemsRead | src/cJSON.c:1530-1569 | the element loop reads all elements that are left, in order |
| JsonExact.PaddedRead | src/cJSON.c:1555-1562 | white space, a value and white space: the value is read and what follows is found |
| JsonExact.ObjectRead | src/cJSON.c:1662-1777 | the same for objects |
| JsonExact.MembersRead | src/cJSON.c:1695-1755 | the member loop reads all members that are left, in order |
| JsonExact.MemberRead | src/cJSON.c:1718-1746 | key, colon and value of a spelled member are read |
| JsonRelaxed.StringRead | src/cJSON.c:824-951 | a spelled string is read to the bytes of its characters and to its end |
| JsonRelaxed.DecodeOfPieces | src/cJSON.c:872-925 | the second pass gives the bytes of the characters spelled |
| JsonRelaxed.DecodeOnePiece | src/cJSON.c:874-924 | one turn gives the bytes of one character, surrogate pairs included |
| JsonRelaxed.NumberRead | src/cJSON.c:307-395 | a numeral that nothing runs on is read to its end |
| JsonRelaxed.LongestRead | src/cJSON.c:307-395 | and so is the longest numeral, whatever follows |
| JsonRelaxed.SkipToTerminator | src/cJSON.c:1090-1113 | the step back at the end of the buffer leaves the offset on the terminator |
| JsonExact.ParsedNesting | src/cJSON.c:1368-1420 | whatever the input, an accepted value nests at most 1000 deep, counting the containers already open |
| JsonExact.QuoteTaken | src/cJSON.c:824-951 | an instance: a string whose malformed escape makes the last escape take the closing quote is accepted |
| JsonAccepts.ParseOfSource | src/cJSON.c:1368-1777 | every legal RFC 8259 text of an int-numbered value, with any white space and any spelling of the escapes, parses to that value and stops at its end, or is refused by the nesting limit |
| JsonAccepts.ParseOfDocument | src/cJSON.c:1147-1224 | every legal document of a C string, with or without a byte order mark and with white space around it, parses to its value exactly when it nests at most 1000 deep; return_parse_end is the end of the value, or the terminator if that is required |
| JsonAccepts.SeenOfDocument | src/cJSON.c:930-936 | what C code sees of the tree, strings and keys ending at their first NUL, is the value of the document if and only if it has no `\u0000` |
| JsonAccepts.ParseOfString | src/cJSON.c:824-951 | every legal string parses to the UTF-8 bytes of its characters and stops just past the closing quote |
| JsonAccepts.SourceSpells | src/cJSON.c:1368-1777 | every legal text is a text of the relaxed grammar, with the same value |
| JsonAccepts.ElementsSpell | src/cJSON.c:1530-1569 | so are the elements of a legal array |
| JsonAccepts.FieldsSpell | src/cJSON.c:1695-1755 | and the members of a legal object |
| JsonAccepts.LegalString | src/cJSON.c:824-951 | and every legal string |
| JsonAccepts.PiecesUnbroken | src/cJSON.c:837-859 | the characters of a legal string hold no bare quote |
| JsonAccepts.PieceUnbroken | src/cJSON.c:841-855 | whatever escape they are |
| JsonAccepts.StrtodOfInteger | src/cJSON.c:307-395 | a numeral in the range of a C int, with or without a minus, is one token that converts completely and exactly |
| JsonGrammar.SeenIsValue | src/cJSON.c:930-936 | what C code sees of a legal text's value is all of it if and only if no string and no key has a `\u0000` |
| JsonGrammar.PiecesWithNul | src/cJSON.c:930-936 | the same for one string |
| JsonGrammar.DepthIsNesting | src/cJSON.h:137 | the containers open at the deepest point of a text are the nesting of its value |
| JsonParser.ParseValue | src/cJSON.c:1368-1420 | on every byte buffer the offset ends inside the buffer or at its end, and a success strictly advances it and restores the depth |
| JsonParser.ParseArray | src/cJSON.c:1497-1592 | the same for arrays, although the offset is stepped back before the element loop |
| JsonParser.ParseItems | src/cJSON.c:1530-1569 | the element loop terminates, stays inside the buffer, and on success closes one container |
| JsonParser.ParseObject | src/cJSON.c:1662-1777 | the same for objects |
| JsonParser.ParseKey | src/cJSON.c:1718-1743 | key and colon: the offset stays inside the buffer and advances on success |
| JsonParser.ParseMembers | src/cJSON.c:1695-1755 | the member loop terminates, stays inside the buffer, and on success closes one container |
| JsonParser.SkipSpace | src/cJSON.c:1090-1113 | white space skipping with its step back never moves before its start, never leaves the buffer, and does not move from a visible byte |
| JsonParser.SpaceRun | src/cJSON.c:1102-1105 | the skipped bytes are exactly the longest run of bytes up to 32 |
| JsonParser.ParseNumber | src/cJSON.c:307-395 | the offset moves only on success and stays inside the buffer |
| JsonParser.ParseEnd | src/cJSON.c:1187-1221 | the position reported lies in the buffer, and on failure before its end |
| JsonReader.ParseHex4 | src/cJSON.c:666-699 | four digits by a loop, 0 at the first character that is no digit |
| JsonReader.WriteUtf8 | src/cJSON.c:766-815 | the bytes written from last to first are the UTF-8 encoding, and nothing before them changes |
| JsonReader.SixBitGroup | src/cJSON.c:798-813 | each byte of an encoding is the mark plus the six-bit group that repeated shifting leaves |
| JsonReader.Utf16LiteralToUtf8 | src/cJSON.c:703-821 | one escape or surrogate pair is consumed and encoded in place, or refused without writing |
| JsonReader.DecodeOne | src/cJSON.c:874-924 | one turn of the second pass appends what the pure step says |
| JsonReader.DecodeInto | src/cJSON.c:870-928 | the second pass fills the array with exactly the decoded string and leaves room for the terminator |
| JsonReader.ParseBuffer.constructor | src/cJSON.c:1161-1164 | a fresh parse buffer stands at offset 0, depth 0 |
| JsonReader.ParseBuffer.SkipWhitespace | src/cJSON.c:1090-1113 | the loop and the step back compute SkipSpace |
| JsonReader.ParseBuffer.ReadNumber | src/cJSON.c:307-395 | the token is copied by a loop and converted; offset and result are those of ParseNumber |
| JsonReader.ParseBuffer.FindQuote | src/cJSON.c:837-859 | the first pass finds the closing quote that ScanEnd finds and counts the same escapes |
| JsonReader.ParseBuffer.ReadString | src/cJSON.c:824-951 | two passes and an allocation of the counted size: result and offset are those of the pure string parser, and every write is inside the array |
| JsonReader.ParseBuffer.ReadValue | src/cJSON.c:1368-1420 | value, offset and depth are exactly those of ParseValue, on every buffer, malformed or not |
| JsonReader.ParseBuffer.ReadArray | src/cJSON.c:1497-1592 | the same for parse_array |
| JsonReader.ParseBuffer.ReadItems | src/cJSON.c:1530-1569 | its loop computes ParseItems |
| JsonReader.ParseBuffer.ReadObject | src/cJSON.c:1662-1777 | the same for parse_object |
| JsonReader.ParseBuffer.ReadKey | src/cJSON.c:1718-1743 | key and colon are read as ParseKey says |
| JsonReader.ParseBuffer.ReadMembers | src/cJSON.c:1695-1755 | its loop computes ParseMembers |
| JsonReader.ParseWithLengthOpts | src/cJSON.c:1147-1224 | byte order mark, white space, value and optional terminator check give exactly ParseText, and return_parse_end exactly ParseEnd, on failure too |
| JsonString.OutputFits | src/cJSON.c:837-936 | for every input, in step or not, what the second pass writes plus the terminator is less than the allocation |
| JsonString.DecodeFits | src/cJSON.c:862-928 | the same from any point of the second pass, with the room still left there |
| JsonString.StepFits | src/cJSON.c:874-924 | one turn of the second pass writes no more bytes than the room it uses up |
| JsonString.SkippedLess | src/cJSON.c:841-855 | the first pass skips fewer bytes than it passes |
| JsonString.ReadsToQuote | src/cJSON.c:824-951 | the second pass gives the same result in every buffer that agrees up to the closing quote, so it reads nothing past it |
| JsonString.ScanEnd | src/cJSON.c:837-859 | the first pass ends on a quote inside the buffer and skips at most one byte for each byte it passes |
| JsonString.Decode | src/cJSON.c:872-925 | the second pass stops at most one past the closing quote, and a refusal lies before it |
| JsonString.ParseString | src/cJSON.c:824-951 | the offset advances and stays in the buffer, and a failure yields no string |
| JsonString.CountPredictsLength | src/cJSON.c:981-1070 | the counting pass predicts exactly the length the writing pass emits |
| JsonString.NoExtraIsIdentity | src/cJSON.c:1013-1022 | when nothing is counted, escaping changes nothing, so the memcpy shortcut is right |
| JsonString.EscapeIsPrintable | src/cJSON.c:1027-1068 | escaped text has no byte below a blank |
| Utf8.DecodeEncode | src/cJSON.c:766-813 | an independent decoder by RFC 3629 gives back every scalar value the encoder encodes |
| Utf8.BasicEscape | src/cJSON.c:703-821 | a well-formed escape outside the surrogates becomes the UTF-8 form of its code point |
| Utf8.PairEscape | src/cJSON.c:728-759 | a surrogate pair becomes the UTF-8 form of the code point RFC 2781 assigns to it |
| Utf8.PairExists | src/cJSON.c:757-758 | every supplementary code point is reached by a pair |
| Utf8.LoneSurrogate | src/cJSON.c:713-755 | an escape is refused if and only if it is a low surrogate, or a high one that no escaped low one follows |
| Utf8.Utf16Literal | src/cJSON.c:703-821 | a literal consumes 0, 6 or 12 bytes and never passes the closing quote |
| JsonNumber.NumberRunIs | src/cJSON.c:325-354 | the token is the longest run of number characters |
| Bytes.DecValueOfText | src/cJSON.c:616-618 | decimal printing and reading undo each other |
| Bytes.StrtolOfText | src/executor.c:331 | strtol base 16 reads back what `%zx` printed, whatever follows that is no digit and no x |
| JsonPrinter.TextNulFree | src/cJSON.c:576-586 | printed text holds no NUL, so the strlen of update_offset finds its end |
| JsonPrinter.TextStart | src/cJSON.c:1423-1494 | printed text starts with a byte that starts a value |
| JsonWriter.CountEscapes | src/cJSON.c:981-1005 | the counting loop computes CountExtra |
| JsonWriter.PrintBuffer.constructor | src/cJSON.c:1245-1251 | a print buffer starts at offset 0, depth 0 |
| JsonWriter.PrintBuffer.Ensure | src/cJSON.c:490-573 | it succeeds exactly when offset, need and one byte fit the capacity; growing, by realloc or by copy, keeps everything written before the offset; the copy reads past the old buffer exactly when that is empty |
| JsonWriter.PrintBuffer.CopyOut | src/cJSON.c:566 | the memcpy of offset + 1 bytes, and whether it reads past the end |
| JsonWriter.PrintBuffer.UpdateOffset | src/cJSON.c:576-586 | strlen from the offset lands exactly on the end of the text |
| JsonWriter.PrintBuffer.PutEscaped | src/cJSON.c:1029-1067 | one byte's escape is written inside the reserved room |
| JsonWriter.PrintBuffer.PutAllEscaped | src/cJSON.c:1024-1068 | the writing loop emits the escaped string inside the reserved room |
| JsonWriter.PrintBuffer.PrintString | src/cJSON.c:954-1073 | it succeeds exactly when the literal and two bytes fit, and leaves the bytes before the offset followed by the literal and a NUL |
| JsonWriter.PrintBuffer.WriteString | src/cJSON.c:1013-1072 | copying or escaping, every write stays inside what was reserved |
| JsonWriter.PrintBuffer.PrintNumber | src/cJSON.c:596-663 | a C int is printed in decimal if it fits; the scratch buffer of 26 bytes always suffices |
| JsonWriter.PrintBuffer.PrintValue | src/cJSON.c:1423-1494 | it succeeds exactly when the nesting is within the limit and the text plus two bytes fit; then the bytes before the offset are unchanged, the pure text and a NUL follow, and the depth is restored |
| JsonWriter.PrintBuffer.PrintLiteral | src/cJSON.c:1434-1459 | a literal is printed exactly when it and two bytes fit |
| JsonWriter.PrintBuffer.PrintArray | src/cJSON.c:1595-1659 | the same for arrays |
| JsonWriter.PrintBuffer.PrintElements | src/cJSON.c:1623-1658 | the elements and the closing bracket are printed exactly when they fit and nest within the limit |
| JsonWriter.PrintBuffer.PrintElement | src/cJSON.c:1623-1647 | one turn of its loop: child, strlen, separator |
| JsonWriter.PrintBuffer.CloseArray | src/cJSON.c:1649-1658 | the closing bracket and the terminator; the depth drops by one |
| JsonWriter.PrintBuffer.Append | src/cJSON.c:1613-1645 | reserving, writing and advancing appends exactly the given bytes |
| JsonWriter.PrintBuffer.PrintItem | src/cJSON.c:1625-1629 | a child printed and measured appends exactly its text |
| JsonWriter.PrintBuffer.PrintObject | src/cJSON.c:1780-1896 | the same for objects, with indentation and tabs when formatted |
| JsonWriter.PrintBuffer.PrintMembers | src/cJSON.c:1812-1895 | the members and the closing brace likewise |
| JsonWriter.PrintBuffer.PrintLead | src/cJSON.c:1814-1847 | indentation, key and colon append exactly the lead of a member |
| JsonWriter.PrintBuffer.PrintKey | src/cJSON.c:1829-1834 | the key is appended as a literal |
| JsonWriter.PrintBuffer.PrintMember | src/cJSON.c:1812-1876 | one turn of its loop appends lead, value and separator |
| JsonWriter.PrintBuffer.CloseBrace | src/cJSON.c:1878-1895 | the closing brace behind its indentation; the depth drops by one |
| JsonWriter.PrintTree | src/cJSON.c:1239-1304 | unbounded printing succeeds exactly within the nesting and INT_MAX limits, returns an allocation of the text and its terminator, and never reads past a buffer |
| JsonWriter.PrintBuffered | src/cJSON.c:1317-1346 | a size guess never changes the text; it reads past the allocation if and only if the guess is zero, there is no realloc, and anything is printed |
| JsonWriter.PrintNullIntoNothing | src/cJSON.c:1317-1346 | an instance: printing null with a size guess of zero |
| JsonWriter.PrintPreallocated | src/cJSON.c:1348-1365 | in a buffer of at least the length given, it succeeds if and only if the nesting is within the limit and the length is at least the text plus two, and then holds the same text |
| JsonWriter.IntTextLength | src/cJSON.c:596-663 | a C int prints in at most 11 characters |
| Minify.MinifyInPlace | src/cJSON.c:2924-2970 | the in-place loop computes the pure function; the write index never passes the read index and nothing behind the terminator changes |
| Minify.MinifyStep | src/cJSON.c:2933-2966 | one turn of the loop keeps what is written plus what is still to be minified |
| Minify.MinifyString | src/cJSON.c:2902-2922 | a string is copied down to its closing quote or the end of the text |
| Minify.KeepInString | src/cJSON.c:2908-2921 | one byte, or a backslash-quote pair, is copied |
| Minify.SkipOnelineComment | src/cJSON.c:2875-2886 | a line comment is passed up to its line feed or the end |
| Minify.SkipMultilineComment | src/cJSON.c:2888-2900 | a block comment is passed up to its end mark or the end |
| Minify.MinifiedNulFree | src/cJSON.c:2924-2970 | minified text holds no NUL before its terminator |
| Minify.Idempotent | src/cJSON.c:2924-2970 | minifying twice is minifying once, for every text, comments and unterminated strings included |
| Minify.IdempotentInString | src/cJSON.c:2902-2922 | the same from inside a string |
| Minify.MinifyFormatted | src/cJSON.c:2902-2970 | minified formatted text equals unformatted text if and only if a trailing backslash occurs only where closing brackets alone follow |
| Minify.MinifyText | src/cJSON.c:2902-2970 | the same for a value in any context: it ends outside a string, still inside one, or differs for good |
| Minify.MinifyMembers | src/cJSON.c:2902-2970 | for members: clean ones minify to the unformatted text, otherwise surviving white space makes the texts differ |
| Minify.MinifyClean | src/cJSON.c:2902-2970 | no string or key ending in a backslash is enough |
| Minify.MinifyKeepsABlank | src/cJSON.c:2916-2920 | a tree for which it fails |
| Siblings.Item.constructor | src/cJSON.c:241-250 | a new item has no children and satisfies the sibling invariant |
| Siblings.GetArrayItem | src/cJSON.c:1922-1939 | the walk along `next` returns the child with that index, or NULL past the end |
| Siblings.AddItemToArray | src/cJSON.c:1999-2058 | appending appends to the sequence of children, and keeps the sibling invariant if and only if the list was empty or the item's `next` was NULL; a refusal changes nothing |
| Siblings.InsertItemInArray | src/cJSON.c:2334-2366 | inserting puts the item at the index, the array itself included, or at the end when the index is past it, where alone its `next` must be NULL for the invariant to hold and the array itself is refused |
| Siblings.LinkBefore | src/cJSON.c:2354-2364 | the relinking in front of a child, head or not |
| Siblings.SplicedIsLinked | src/cJSON.c:2354-2364 | those links are the sibling invariant of the longer list |
| Siblings.DetachItemViaPointer | src/cJSON.c:2258-2292 | detaching head, middle, tail or only child removes exactly that child and clears its links |
| Siblings.Unlink | src/cJSON.c:2265-2289 | the relinking around head, middle, tail or only child |
| Siblings.ClosedIsLinked | src/cJSON.c:2265-2289 | those links are the sibling invariant of the shorter list |
| Siblings.DetachItemFromArray | src/cJSON.c:2294-2302 | the same by index; a bad index changes nothing |
| Siblings.ReplaceItemViaPointer | src/cJSON.c:2368-2415 | replacing updates exactly that position, also by the parent itself; replacing an item by itself changes nothing |
| Siblings.Exchange | src/cJSON.c:2380-2410 | the relinking for head, middle, tail or only child |
| Siblings.ExchangedIsLinked | src/cJSON.c:2380-2410 | those links are the sibling invariant of the list with that child exchanged |
| Siblings.ReplaceItemInArray | src/cJSON.c:2417-2425 | the same by index |
| Siblings.Perform | src/cJSON.c:1999-2425 | each operation by index or by pointer acts as its sequence operation and keeps the pool of items well linked |
| Siblings.PerformAt | src/cJSON.c:1999-2425 | the operations by index |
| Siblings.DetachOne | src/cJSON.c:2258-2292 | detaching a child by pointer |
| Siblings.DetachNone | src/cJSON.c:2258-2263 | detaching an item that is nobody's child changes nothing |
| Siblings.ReplaceOne | src/cJSON.c:2368-2415 | replacing a child by pointer |
| Siblings.PerformAll | src/cJSON.c:1999-2425 | every sequence of operations keeps the sibling invariant and leaves the children the sequence operations give |
| Siblings.Members | src/cJSON.c:1999-2425 | which items an operation by index can add or remove |
| Siblings.InsertThenDetach | src/cJSON.c:2294-2366 | detaching what was just inserted restores the children |
| Siblings.AppendWithoutDetaching | src/cJSON.c:1999-2058 | an instance: an item appended while it stands in another list takes the item behind it along |
| Siblings.InsertIntoItself | src/cJSON.c:2354-2364 | an instance: an array inserted into itself becomes its own first child |
| Siblings.ReplaceIsDetachInsert | src/cJSON.c:2368-2415 | replacing is detaching and inserting in the same place |
| Duplicate.Node.constructor | src/cJSON.c:2801-2826 | a new node is a tree of its own |
| Duplicate.DuplicateRec | src/cJSON.c:2789-2873 | it succeeds exactly when no child lies deeper than 10000, and returns an equal tree of entirely new nodes whose lists are in order at every level; nothing that existed changes |
| Duplicate.CopyChild | src/cJSON.c:2836-2857 | one turn of the loop: limit, recursion, links |
| Duplicate.AppendCopy | src/cJSON.c:2844-2856 | linking one more copy keeps the chain and the copies apart |
| Duplicate.Adopt | src/cJSON.c:2859-2862 | pointing the head's `prev` at the last copy completes the list invariant |
| Duplicate.TooDeep | src/cJSON.c:2836-2843 | one child out of reach makes the whole tree too deep |
| Duplicate.FitsAll | src/cJSON.c:2836-2843 | and if all children are within reach the whole tree is |
| JsonCompare.CompareTrees | src/cJSON.c:3072-3195 | the recursion with its sibling loops decides the pure comparison |
| JsonCompare.CoverMembers | src/cJSON.c:3158-3187 | one of the two loops over object members |
| JsonCompare.GetObjectItem | src/cJSON.c:1951-1981 | the walk finds the first member with the key in the given mode |
| JsonCompare.FindMember | src/cJSON.c:1951-1981 | the member found has the key and none before it does |
| JsonCompare.CloseEnoughIsEqual | src/cJSON.c:589-593 | on C ints the relative tolerance of compare_double never bites |
| JsonCompare.Symmetric | src/cJSON.c:3072-3195 | symmetric on all trees in both case modes |
| JsonCompare.Transitive | src/cJSON.c:3072-3195 | transitive on int-numbered trees in both case modes, duplicate keys included |
| JsonCompare.CompareIsMeaning | src/cJSON.c:3072-3195 | on int-numbered trees it holds if and only if both trees are consistent (members of one object with the same key have the same value) and they denote the same value with objects as maps, in both case modes |
| JsonCompare.DistinctIsConsistent | src/cJSON.c:3154-3190 | distinct keys are consistent |
| JsonCompare.CoveredIsConsistent | src/cJSON.c:3158-3187 | a loop over members that succeeds has found consistent values, and the one map in the other |
| JsonCompare.ConsistentIsCovered | src/cJSON.c:3158-3187 | and it succeeds on consistent objects when the one map is part of the other |
| JsonCompare.CoveredIsSubmap | src/cJSON.c:3158-3187 | one loop over members of consistent objects decides whether one object's map is part of the other's |
| JsonCompare.Reflexive | src/cJSON.c:3072-3195 | a tree compares equal to a separate copy of itself if and only if it is consistent |
| JsonCompare.DistinctReflexive | src/cJSON.c:3072-3195 | so it does to its copy when keys are distinct |
| JsonCompare.Reordered | src/cJSON.c:3154-3190 | an object compares equal to every permutation of its members if and only if it is consistent |
| JsonCompare.DuplicateKeysBreakReflexivity | src/cJSON.c:3154-3190 | an instance that differs from its copy: one key for true and for false |
| BodyReader.FeedConcat | src/executor.c:320-374 | reading a stream in two parts is reading it at once |
| BodyReader.FeedData | src/executor.c:343-352 | a read of several data bytes is as good as reading them one by one |
| BodyReader.FeedOverdue | src/executor.c:343-352 | the same when the count is negative and never reaches zero |
| BodyReader.SizeLineValue | src/executor.c:329-336 | a size line of RFC 9112, with any leading zeros or extension, is read as its size if and only if it has at most 31 digits or the size is zero, and otherwise as less |
| BodyReader.FeedSizeLine | src/executor.c:325-336 | a complete size line makes the reader due the chunk's size if and only if the line is legible |
| BodyReader.FeedChunk | src/executor.c:320-374 | a well-formed chunk with a legible size line yields its data and returns to the next size line |
| BodyReader.ChunkSurvives | src/executor.c:320-374 | a well-formed chunk decodes to its data if and only if its size line is legible |
| BodyReader.FramingCosts | src/executor.c:320-374 | between the data of two chunks the reader spends at least three bytes |
| BodyReader.CutOff | src/executor.c:329-336 | a chunk of whose size only zeros are kept ends the body: its data and all that follows is lost |
| BodyReader.FiveBytesLost | src/executor.c:334-336 | an instance: five bytes announced with 31 leading zeros |
| BodyReader.FeedBody | src/executor.c:320-374 | every well-formed chunked body with legible size lines, trailer fields included, decodes to exactly its data and ends the reader |
| BodyReader.FeedLength | src/executor.c:227-235 | a body of Content-Length n is its first n bytes |
| BodyReader.FeedFrame | src/executor.c:424-434 | a chunk this program writes is read back by its own reader |
| BodyReader.FeedFramesAndLast | src/handler.c:98-108 | so is a whole response with its last chunk |
| BodyReader.FeedSound | src/executor.c:325-336 | framing bytes never lead to a data count that wraps unless a size line does |
| PumpRuns.ReadBodyKeeps | src/executor.c:320-374 | reading part of the body, whatever its size lines say, keeps: received plus buffered is the decoding of what was consumed |
| PumpRuns.FeedChildKeeps | src/executor.c:390-407 | so does a write to the child, partial or failed |
| PumpRuns.IterateBody | src/executor.c:260-480 | so does one whole iteration |
| PumpRuns.IterateClose | src/executor.c:463-468 | at every loop head a body that has ended with nothing buffered has stdin closed, and stdin is closed early only after a failed write |
| PumpRuns.WriteOutputKeeps | src/executor.c:376-388 | a partial SSL_write keeps sent plus queued |
| PumpRuns.QueueOutputKeeps | src/executor.c:417-435 | a read from stdout is queued as a whole frame or dropped whole, within 131072 bytes |
| PumpRuns.IterateQueue | src/executor.c:260-480 | one iteration keeps: sent plus queued is the frames of the reads that fitted |
| PumpRuns.RunKeeps | src/executor.c:260-480 | the queue and closing invariants hold after every run |
| PumpRuns.RunBody | src/executor.c:260-480 | the body invariant holds after every run |
| PumpRuns.ChildGetsBody | src/executor.c:320-407 | in every run, for any body, any split of reads and any partial writes, the child's input followed by the buffer is the decoding of the bytes consumed |
| PumpRuns.ClosedMeansDelivered | src/executor.c:320-468 | once stdin is closed without a failed read or write, the child has received exactly the data of the chunked body, if its size lines are legible |
| PumpRuns.ClosedMeansDeliveredLength | src/executor.c:320-468 | the same for a body of Content-Length n |
| PumpRuns.OutputDecodes | src/executor.c:376-500 | in every run the bytes sent, the flush and the last chunk form a chunked body that the program's own reader decodes to the kept stdout reads in order |
| PumpRuns.DroppedOnlyWhenFull | src/executor.c:418-435 | in every run each stdout read that was recorded is what one iteration delivered, and it was kept if and only if its frame fitted the queue when it arrived |
| PumpRuns.NothingToPollMeansAlmostDone | src/executor.c:300-312 | when the poll set is empty only the child's exit is outstanding, so the break loses nothing |
| StdinBound.DataReadBound | src/executor.c:343-347 | a data read keeps the buffer within 65536 bytes, whatever arrives, if and only if the length asked for is at most the free space; a count that does not wrap guarantees it |
| StdinBound.RunBound | src/executor.c:260-479 | a run that never asks for more than is free keeps the bound |
| StdinBound.Overfills | src/executor.c:343-347 | a run that does can be turned into one that overfills the buffer |
| StdinBound.BoundExactly | src/executor.c:260-479 | all runs keep the bound if and only if no run asks for more than is free |
| StdinBound.HonestRespects | src/executor.c:325-347 | a run asks for no more than is free if none of the size lines it consumes gives a count that wraps |
| StdinBound.BufferBound | src/executor.c:320-407 | so its buffer never holds more than 65536 bytes |
| StdinBound.WellFormedRespects | src/executor.c:320-407 | so does every run over a well-formed body with legible size lines |
| StdinBound.NegativeCount | src/executor.c:343-352 | with a negative count due, every continuation keeps the bound if and only if the count's conversion to int is at most the free space, or at most one when the buffer is full, or the full buffer cannot drain any more |
| StdinBound.RunOverdue | src/executor.c:343-352 | such a count never overfills the buffer, however the run goes on |
| StdinBound.CountAfterChunks | src/executor.c:325-352 | behind any legible chunks with D bytes of data a negative count keeps the bound in all runs over that stream, however it is read and drained, if and only if the count's conversion to int is at most what D bytes leave free, or at most one |
| StdinBound.RunInside | src/executor.c:320-407 | a run over such a stream keeps the bound if it is |
| StdinBound.IterateInside | src/executor.c:260-479 | one iteration stays ahead of the size line's end, or the count is due and harmless |
| StdinBound.DataInside | src/executor.c:343-352 | data that is due ends before the next size line does, so no read runs past it |
| StdinBound.FillsAndBreaks | src/executor.c:320-407 | and if it is not there is a run that fills the buffer as far as the data goes and then overfills it |
| StdinBound.AllArrives | src/executor.c:320-407 | the stream can be delivered byte by byte so that the child is given nothing before the buffer is full |
| StdinBound.FirstLineBound | src/executor.c:325-347 | in particular a body that starts with a negative count keeps the bound in all runs if and only if the count's conversion to int is at most 65536 |
| StdinBound.BoundBroken | src/executor.c:343-347 | a run that overfills the buffer, from the size line -80000001 |
| ExecPump.CopyIn | src/executor.c:428-431 | memcpy appends |
| ExecPump.ShiftDown | src/executor.c:380-382 | memmove drops the bytes already written |
| ExecPump.Pipe.constructor | src/executor.c:221-253 | the locals start in the model's initial state |
| ExecPump.Pipe.FramingByte | src/executor.c:325-366 | a byte of framing acts as in the model |
| ExecPump.Pipe.Fill | src/executor.c:345-347 | data lands behind what is buffered and nothing else changes |
| ExecPump.Pipe.CountDown | src/executor.c:348-352 | the remaining count and the state after the last data byte |
| ExecPump.Pipe.DataBytes | src/executor.c:343-352 | data bytes act as in the model |
| ExecPump.Pipe.SslReadPart | src/executor.c:320-374 | the reading part computes the model's step, wants included, as long as no more is asked for than is free |
| ExecPump.Pipe.EndOfBody | src/executor.c:354-358 | a failed read ends the body |
| ExecPump.Pipe.SslWritePart | src/executor.c:376-388 | the writing part computes the model's step |
| ExecPump.Pipe.StdinPart | src/executor.c:390-407 | the write to the child computes the model's step |
| ExecPump.Pipe.StdoutPart | src/executor.c:418-435 | framing into the queue computes the model's step |
| ExecPump.Pipe.SslHalf | src/executor.c:320-388 | the TLS half of an iteration |
| ExecPump.Pipe.FeedPart | src/executor.c:390-407 | the child is written to only if its stdin was polled |
| ExecPump.Pipe.OutputPart | src/executor.c:409-459 | stdout is framed, stderr discarded, ends recorded |
| ExecPump.Pipe.CloseStdin | src/executor.c:463-468 | stdin is closed when the body is read and handed over |
| ExecPump.Pipe.WaitChild | src/executor.c:470-478 | the child's exit is recorded once |
| ExecPump.Pipe.ChildHalf | src/executor.c:390-478 | the child's half of an iteration |
| ExecPump.Pipe.Iteration | src/executor.c:260-479 | one iteration is one step of the model |
| ExecPump.Pipe.Loop | src/executor.c:260-479 | the loop makes exactly the model's run, within both buffers, for every run that never asks for more than is free |
| StreamFraming.SendChunk | src/handler.c:98-104 | the three writes form one chunk with a matching size line |
| StreamFraming.SendChunkFinal | src/handler.c:106-108 | the last chunk |
| StreamFraming.StreamCallback | src/handler.c:110-139 | every piece of the data becomes one chunk in order; the overflow break is never taken |
| StreamFraming.PayloadsAreData | src/handler.c:110-139 | for NUL-free data the payloads of the events concatenate to the data |
| StreamFraming.StreamDecodes | src/handler.c:98-139 | the whole response decodes to its events |
| PipeQuery.UrlEncode | adb-termux.sh:126-139 | the loop encodes character by character, one above 127 by its code point; echo passes the result on unless it looks like options |
| PipeQuery.BuildPipeQuery | adb-termux.sh:175-186 | the query is the command segment, the environment segments in order, and raw=1 if asked for |
| PipeQuery.HandleExecPipe | src/handler.c:398-456 | segment loop and decoding compute the pure request, or the missing-command error |
| PipeQuery.UrlDecode | src/handler.c:441-455 | the decoding loop stays inside its 4096-byte buffer and decodes the first 4095 bytes |
| PipeQuery.DecodeEncode | src/handler.c:441-455 | decoding inverts the encoding of ASCII text, cut to the buffer's size |
| PipeQuery.WideIsLost | src/handler.c:441-455 | text with any other character never decodes to its UTF-8 bytes |
| PipeQuery.Utf8IsHigh | adb-termux.sh:134 | those hold at least two bytes above 127 for each such character |
| PipeQuery.DecodedIsLow | src/handler.c:441-455 | and the decoded text at most one |
| PipeQuery.EncodeSafe | adb-termux.sh:126-139 | encoded text holds no separator |
| PipeQuery.EchoOptionEncoded | adb-termux.sh:138 | encoding neither makes nor hides an echo option |
| PipeQuery.SegmentsAppend | src/handler.c:408-434 | a further segment is handled last, whatever comes before it |
| PipeQuery.EnvSegmentStores | src/handler.c:417-431 | an environment segment stores its pair if it fits and touches nothing else |
| PipeQuery.QueryHandled | src/handler.c:398-456 | what the server makes of every query the shell builds: decoded command, raw flag and environment, or the error for an empty command and one that echo eats |
| PipeQuery.CommandSurvives | adb-termux.sh:126-186 | in a UTF-8 locale the server recovers exactly the bytes of the command if and only if it is not empty, all its characters are ASCII, echo does not take it for options and it has at most 4095 bytes, whatever segments follow |
| PipeQuery.DashNIsLost | adb-termux.sh:138 | the command `-n` is lost |
| PipeQuery.AccentIsMangled | adb-termux.sh:134 | the command U+00E9, two bytes in UTF-8, arrives as the byte E9 |
| PipeQuery.EnvUnchanged | src/handler.c:417-430 | a half of an environment pair arrives as it is if and only if it is made of unreserved characters and echo does not take it for options |
| PipeQuery.OnlyUnreserved | adb-termux.sh:131-135 | only unreserved characters encode to themselves |
| WebSocket.CDPSocket.constructor | test.js:181-188 | a fresh socket has received and sent nothing |
| WebSocket.CDPSocket.OnData | test.js:190-233 | one data event leaves exactly the state the pure receiver has |
| WebSocket.CDPSocket.FirstFrame | test.js:192-218 | the first frame is cut out once it is complete, in all three length forms, masked or not |
| WebSocket.CDPSocket.Unmask | test.js:214-218 | the unmasking loop |
| WebSocket.CDPSocket.SendFrame | test.js:244-266 | exactly the frame of the payload is written |
| WebSocket.CDPSocket.BuildFrame | test.js:244-265 | the header in its three forms and the payload behind it |
| WebSocket.CDPSocket.WriteBigEndian | test.js:256-262 | the length field is written most significant byte first |
| WebSocket.MaskTwice | test.js:214-218 | masking twice is the identity |
| WebSocket.HeaderOfFrame | test.js:192-206 | the header of a sent frame is read back, with anything behind it |
| WebSocket.NextOfFrame | test.js:192-218 | a sent frame is read back as a text frame with its payload |
| WebSocket.PartialFrame | test.js:192-209 | an incomplete frame is left alone |
| WebSocket.FrameStable | test.js:192-218 | a complete frame is read the same whatever follows it |
| WebSocket.DrainEarly | test.js:190-233 | handling an event early changes nothing that later bytes decode to |
| WebSocket.SplitInvariant | test.js:190-233 | any cutting of any stream into events delivers the same payloads and closes or not as one single event would; if it stays open the same bytes are kept |
| WebSocket.DrainClosed | test.js:228-231 | nothing behind a close frame is looked at |
| WebSocket.StaysOpen | test.js:228-231 | no cutting closes a receiver that the whole stream leaves open |
| WebSocket.DeliversExactly | test.js:190-266 | whatever has arrived of a stream of sent frames, cut anywhere, exactly the payloads of the complete ones are delivered, in order and once each, and exactly the rest is kept |

## Left out

- JSON numbers with a fraction, an exponent, or a value outside C `int`: they stay text (`Real`); their doubles, `%1.15g` printing and `strtod` rounding are libc's. `Printable` trees and `Legal` texts have none.
- Allocation failure, allocator hooks (beyond the choice between realloc and copying in `ensure`), raw items, reference items, constant keys, and NULL keys or strings.
- JsonReader.ParseBuffer.ReadValue: builds values instead of heap nodes, and keeps NUL bytes of decoded strings that C code would take for the end; `JsonTree.Seen` is what such code sees.
- JsonReader.ParseBuffer.ReadArray: does not link the new items or set the head's `prev`; the linking of nodes is the subject of `Siblings` and `Duplicate`.
- JsonReader.ParseBuffer.ReadItems: likewise collects values instead of linking items.
- JsonReader.ParseBuffer.ReadObject: likewise.
- JsonReader.ParseBuffer.ReadMembers: likewise.
- JsonReader.ParseWithLengthOpts: the global error record, of which `end` is the position.
- JsonCompare.CompareTrees: works on values, without the shortcut for two identical pointers at src/cJSON.c:3097; the walk over siblings is an index into the sequence of children.
- Siblings.Perform: the operations by key, which look the child up first; deleting and freeing items.
- Duplicate.DuplicateRec: trees without shared or circular nodes and without reference items; a double is carried as its 64 bits.
- ExecPump.Pipe.Loop: says nothing of runs that ask for more than is free, in which the C program writes past its buffer, nor of termination: it runs as long as its script of environment choices.
- SSE mode of `exec_run_pipe`, whose queue length grows by would-be lengths of `snprintf`; fork, signals, timeouts and the kill after a TLS error.
- PumpRuns.OutputDecodes: takes the final blocking flush and the last chunk to be written completely; the same holds for every SSL_write in `StreamFraming`.
- WebSocket.CDPSocket.OnData: logs the payloads instead of parsing them and calling back; continuation frames and control frames other than close are dropped as the code drops them, and the handshake is left out.
- PipeQuery.UrlEncode: a UTF-8 locale and strings of Unicode characters, without bytes that are no valid UTF-8, and with the ranges of its patterns taken as ASCII; in a locale of single bytes only the ASCII results apply.
- Percent-decoding of `env_` parameters: the server copies them undecoded, and so does the model.
- `parse_request_line` and its 1024-byte query, the port-forward registry, TLS setup, server start, uploads, downloads and updates: process, file-system and library plumbing.
