# JSON and message transport: a verified model

The repository has two layers, and both are modelled here.

The first is the vendored JSON library. It reads a text in two ways: by recursive descent, and by a table-driven
automaton with an explicit stack. Both deliver events to a handler. A document is a handler that builds a tree; a writer
is a handler that makes text; `Accept` walks a tree and delivers its events again. Underneath are a UTF-8 codec, integer
to decimal conversion, exact many-word arithmetic for the border cases of decimal to binary conversion, the digit
generator of the opposite direction, a pool allocator and an untyped stack.

The second is the transport between the gate and the logic server: a growing circular buffer per socket, frames on the
byte stream, and the lists that carry messages between an I/O thread and worker threads.

## Main results

- The two parsers are one parser: same verdict, same events, same cursor, same code where a value is not missing, for
  every text, flag and handler (`Equivalence.ParsersAgree`), and what they deliver always nests (`Nesting.EventsNest`).
- Whitespace between tokens changes nothing (`Respacing.BlanksDoNotMatter`); escapes, words and numbers are read as they
  are spelled (`Spelling.ReadSpelled`, `Spelling.NumberSpelled`), and each code says what is wrong where the cursor
  stands (`Errors.ParseExplained`).
- They accept exactly the texts that have a derivation tree, and no text has two (`Syntax.ParserAcceptsLanguage`).
- Writing and reading are inverse on trees, for the compact and every indented layout (`RoundTrip.WriteReadSame`), and
  any text that parses without doubles has a tree that survives writing and parsing; a validating parser takes the
  written text back exactly when its strings are well-formed UTF-8 (`Reprint.ParseWriteParse`).
- The indented text is the compact one, indented byte by byte without knowledge of trees (`Layout.IndentedText`).
- The document is a faithful record: it rebuilds what `Accept` walks (`Document.AcceptRebuilds`), and `Accept` on what
  it has built from any text delivers the events of the parse again (`Replay.ParseReplays`).
- The codec accepts exactly the strings of section 4 of RFC 3629 and inverts encoding (`Utf8.WellFormedIffEncoded`,
  `Utf8.DecodeEncode`); ASCII output with `\u` escapes is undone by the reader (`AsciiStrings.AsciiRoundTrip`).
- Decimal text becomes a many-word integer of exactly its value (`BigNumbers.BigInteger.FromDecimal`); the shift and the
  subtraction are exact under a stated condition and only then; the half-ulp test compares rational numbers exactly
  (`HalfUlp.CheckWithinHalfULP`).
- The digit generator ends, never overflows, stays inside its interval and puts as few digits as can be
  (`DigitGenerator.DigitGen`, `DigitGenerator.Shortest`); as long as its table of ten powers is not left, they are also
  the nearest ones, and the table is not left under a stated condition and only then (`DigitGenerator.TableIndex`).
- Over any run of Malloc and Realloc the blocks of the pool never overlap and each keeps what its caller has stored in it,
  and requests that fit in one chunk take one chunk (`PoolRuns.Run`).
- A socket's buffer is a queue of bytes (`RingBuffer.Run`); frames are found again however the stream is cut
  (`Frames.StreamParsed`), and exactly when no frame but the last has an unknown id the cuts do not show
  (`Frames.ChunkingIndependent`).
- In every interleaving, messages and replies are neither lost, duplicated nor reordered (`Queues.RunKept`), and from
  every state all of them can still arrive (`Queues.EverythingArrives`).

## Where the code does less than its documentation says

- `BigInteger::operator<<=` by a positive multiple of 64 moves only the top word (biginteger.h:126-129). It is exact for
  one word, and otherwise only when memory happens to repeat; `BigInteger.ShiftLeft` states this as an equivalence, and
  `ShiftLostExample` gives two words for which it fails.
- `BigInteger::Difference` detects a borrow by comparing the result with the minuend, which misses it where an all-ones
  word of the smaller number meets a borrow; `BigInteger.Difference` states by how much and when, `BorrowLostExample`
  gives numbers and the words computed from them, and `CheckWithinHalfULP` says when its answer is still right.
- The capacity of `BigInteger` is the bit count divided by the bytes of a word, 416 words instead of 52. Reading a
  decimal text needs a free word behind the number in front of its last digits, times a power of five; `HasRoom` says
  when there is one, and `RoomIsExact` that this is exact.
- `RAPIDJSON_ALIGN` masks with a 32-bit constant, so sizes from 2^32 - 3 on are not rounded up (`AlignWorks`).
- `Realloc` finds the last block by its size as the caller knows it, but the end of the chunk is at the rounded size
  (allocators.h:190): only a block whose size is a multiple of four can grow in place. `PoolRuns.AllocateThenGrow` states
  this as an equivalence.
- `DigitGen` looks up a power of ten with the number of fraction digits (dtoa.h:104). Its table has ten entries; the index
  stays in it if and only if what is left is within the error bound by the ninth fraction digit (`TableIndex`), for which
  an error bound of one unit in that digit is enough (`TableGuard`). `TableTooShort` gives an input that leaves the table.
  What is found behind it is arbitrary in the model; it only guides the rounding, so the digits still lie in the interval.
- With validation on, an escaped low surrogate outside a pair is accepted (reader.h:690-704) and becomes bytes that are not
  UTF-8; a text that is written from them is refused. `ScannedWellFormed` says that nothing else passes, and
  `LoneLowNotReread` gives the text.
- A frame with an unknown id ends the call that drops it, so the frames behind it wait for the next call.

## How it is modelled

A text is a sequence of bytes with a cursor; every position from its end on holds NUL. A handler is a predicate on the
list of events delivered so far, its answer to the last one. Objects of the source are classes with the source's fields;
each method is proved against a function of the old state, and the laws are lemmas about these functions. Machine
arithmetic is either a type with range checks on every operation (`Machine`), or a word with an explicit wrap
(`Words.Wrap`). Shifts and masks by constants are written as products, quotients and remainders.

The threads are a transition system whose steps are the blocks under one lock and the statements between them; a worker
may wake at any time. The workers' objects keep a ghost record of where each message is, and each method is one step of
that system.

## Model

| member | source | states |
|---|---|---|
| `Equivalence.ParsersAgree` | Includes/rapidjson/reader.h:1401-1432 | for every text, flag and handler (also one that refuses), the iterative parser accepts exactly what the recursive one accepts, delivers the same events with the same counts, stops at the same place on success, and reports the same code on failure; only where a value is missing in front of punctuation it reports an empty document or an unspecific error instead of an invalid value |
| `Equivalence.ValueFollows` | Includes/rapidjson/reader.h:986-997 | whatever the recursive parser does with a value, the automaton does from any live configuration that expects one, and it is then behind the value with its stack as before |
| `Equivalence.InsideFollows` | Includes/rapidjson/reader.h:1240-1380 | between an opening bracket and its end the automaton stops with the same events, or goes on behind the container in the state that was saved for it |
| `Equivalence.ElementsFollow` | Includes/rapidjson/reader.h:533-548 | the loop of ParseArray from any element on, and the automaton, agree, whatever count has been reached |
| `Equivalence.MembersFollow` | Includes/rapidjson/reader.h:483-512 | the loop of ParseObject from any name on, and the automaton, agree, whatever count has been reached |
| `Equivalence.ScalarEntry` | Includes/rapidjson/reader.h:1047-1236 | where a value is expected and there is no bracket, the token table has no entry exactly for comma, colon and the closing brackets, and otherwise leads to the state of a scalar |
| `Equivalence.PunctuationTable` | Includes/rapidjson/reader.h:1074-1236 | the entries of the table for brackets and commas |
| `Syntax.ValueComplete` | Includes/rapidjson/reader.h:986-997 | every derivation tree, at any place of a text, is parsed to its end, with its events and their 32-bit counts |
| `Syntax.ValueSound` | Includes/rapidjson/reader.h:986-997 | whatever is parsed has a derivation tree over exactly the bytes that were taken |
| `Syntax.Unambiguous` | Includes/rapidjson/reader.h:465-549 | no place of a text has two derivation trees |
| `Syntax.ParserAcceptsLanguage` | Includes/rapidjson/reader.h:392-422 | either parser accepts exactly the texts that are one derivable value between whitespace, and delivers the events of the one tree there is |
| `Automaton.PredictSources` | Includes/rapidjson/reader.h:1074-1236 | from which states each destination can be predicted; Start and Finish are never predicted |
| `Automaton.StepFits` | Includes/rapidjson/reader.h:1240-1380 | each step keeps Start at the bottom of the stack and Element or MemberValue above it, one per open container, so no pop underflows and the closing assertion never fails |
| `Automaton.StepConsumes` | Includes/rapidjson/reader.h:1405-1424 | every successful step consumes input, so the loop ends |
| `Automaton.HandleError` | Includes/rapidjson/reader.h:1382-1398 | a parse that stops without an error code gets one |
| `Errors.ParseExplained` | Includes/rapidjson/reader.h:392-549 | what each code of the recursive parser says of the byte at its cursor, of the handler's last answer, or of the scalar there; an empty document is exactly one of whitespace only |
| `Errors.StringCodes` | Includes/rapidjson/reader.h:663-724 | a string that is refused is refused with a code of strings |
| `Respacing.BlanksDoNotMatter` | Includes/rapidjson/reader.h:246-253 | a run of blanks, line feeds, carriage returns and tabs more, in front of the tokens of any text, between two of them or behind them, changes neither the verdict, nor the code, nor the events of either parser |
| `Respacing.StringShown` | Includes/rapidjson/reader.h:663-724 | what a scan of a string answers depends only on the bytes it takes, wherever they stand |
| `Respacing.NumberShown` | Includes/rapidjson/reader.h:771-849 | what a scan of a number answers depends only on its bytes and on the byte behind them not continuing it |
| `Nesting.StepFaithful` | Includes/rapidjson/reader.h:1240-1380 | each step keeps state and stack in agreement with the events delivered so far, and even a failing step delivers only events that nest |
| `Nesting.ReachableFaithful` | Includes/rapidjson/reader.h:1401-1432 | at every reachable turn of the loop the stack holds exactly the open containers of the event list, with their counts and pending names |
| `Nesting.EventsNest` | Includes/rapidjson/reader.h:1401-1432 | both parsers deliver only well-nested events: each End closes a Start of its kind with the right count, names and values alternate, integers fit their type, and success leaves exactly one complete root |
| `GenericReader.Reader.SkipWhitespace` | Includes/rapidjson/reader.h:246-253 | the cursor moves over blanks, line feeds, carriage returns and tabs, given as bytes, and stops at the first byte that is none of them |
| `GenericReader.Reader.ParseLiteral` | Includes/rapidjson/reader.h:551-588 | null, true and false: accepted exactly when the word is there, letter by letter |
| `GenericReader.Reader.ParseHex4` | Includes/rapidjson/reader.h:590-610 | succeeds exactly on four hexadecimal digits in any mix of cases, with the number they spell and the cursor behind them |
| `GenericReader.Reader.ParseUnicode` | Includes/rapidjson/reader.h:690-704 | the code point that one escape or a surrogate pair spells; one error exactly for missing digits, the other for a high surrogate that nothing completes |
| `Spelling.RunSkipped` | Includes/rapidjson/reader.h:246-253 | the whole run of blanks at a cursor is skipped, and nothing behind it |
| `Spelling.HexDigits` | Includes/rapidjson/reader.h:597-604 | each of the 22 hexadecimal digits has the value of its place in 0 to F, no other byte is one |
| `Spelling.HexSpelled` | Includes/rapidjson/reader.h:592-610 | four bytes are digits exactly when they spell a number, and they spell just one |
| `Spelling.UnicodeSpelled` | Includes/rapidjson/reader.h:690-704 | what an escape is scanned as, in terms of the numbers its digits spell |
| `Spelling.ReadSpelled` | Includes/rapidjson/reader.h:690-704 | an escape or a pair of them, its digits in any mix of cases, puts the encoding of the code point it spells |
| `Spelling.ReadLetter` | Includes/rapidjson/reader.h:669-689 | each of the eight one-letter escapes puts the byte it stands for |
| `Spelling.NoLetter` | Includes/rapidjson/reader.h:705-706 | any other letter is the escape error |
| `Spelling.WordsSpelled` | Includes/rapidjson/reader.h:551-588 | null, true and false are scanned exactly where their letters stand, given as bytes |
| `Spelling.NumberSpelled` | Includes/rapidjson/reader.h:771-849 | by its digits a number is an integer in the narrowest type of its sign, unless a point, an e or an E follows or it is beyond 64 bits |
| `Spelling.NoDigits` | Includes/rapidjson/reader.h:776-821 | a number starts with a digit behind the sign |
| `GenericReader.Reader.ParseStringToStream` | Includes/rapidjson/reader.h:663-724 | the bytes between the quotes with escapes undone and, on request, UTF-8 checked, or the error, as the scanning function says; the cursor is behind the closing quote |
| `GenericReader.Reader.ParseString` | Includes/rapidjson/reader.h:635-661 | the string is delivered as String or Key once, and a refusal ends the parse |
| `GenericReader.Reader.ParseUint32` | Includes/rapidjson/reader.h:787-819 | 32-bit accumulation never overflows, and stops exactly at the first digit that would leave the type of the sign |
| `GenericReader.Reader.ParseUint64` | Includes/rapidjson/reader.h:823-849 | 64-bit accumulation never overflows, and stops exactly at the first digit that would leave the type of the sign |
| `GenericReader.Reader.ParseMagnitude` | Includes/rapidjson/reader.h:782-849 | for a run of digits of any length: the exact magnitude in 32 or 64 bits, or the exact point where it leaves the integer types |
| `GenericReader.Reader.ParseNumber` | Includes/rapidjson/reader.h:771-849 | an integer literal of any length is reported exactly, in the narrowest of Int and Int64 with a minus and of Uint and Uint64 without, and goes to the floating part only beyond them or before a fraction or exponent |
| `GenericReader.Reader.ParseScalarValue` | Includes/rapidjson/reader.h:985-996 | any value that is not a container, with the shared scalar scanner |
| `GenericReader.Reader.ParseValue` | Includes/rapidjson/reader.h:985-997 | the method does what the parsing function says: verdict, events and cursor |
| `GenericReader.Reader.ParseArray` | Includes/rapidjson/reader.h:515-549 | the loop over elements does what the recursion says, and ends |
| `GenericReader.Reader.ParseObject` | Includes/rapidjson/reader.h:465-513 | the loop over members does what the recursion says, and ends |
| `GenericReader.Reader.ParseMemberName` | Includes/rapidjson/reader.h:483-496 | a name and a colon, or the error that tells which is missing |
| `GenericReader.Reader.Parse` | Includes/rapidjson/reader.h:392-422 | the recursive parser on a whole text: verdict and events, which are also those of the iterative one |
| `GenericReader.Reader.Transit` | Includes/rapidjson/reader.h:1238-1380 | the method makes the move of the transition function on cursor, events, stack and error |
| `GenericReader.Reader.HandleError` | Includes/rapidjson/reader.h:1382-1398 | sets the code of a grammar error, and keeps one that is already set |
| `GenericReader.Reader.IterativeParse` | Includes/rapidjson/reader.h:1401-1432 | the iterative parser on a whole text: verdict and events, which are also those of the recursive one |
| `Utf8.Classes` | Includes/rapidjson/encodings.h:178-194 | each mask used with the class table admits exactly the byte range that section 4 of RFC 3629 has at that place |
| `Utf8.Decode` | Includes/rapidjson/encodings.h:123-150 | succeeds exactly on a UTF8-char of section 4 of RFC 3629, with its code point, and takes exactly its bytes |
| `Utf8.Validate` | Includes/rapidjson/encodings.h:152-176 | the same verdict as Decode; what is copied is exactly what was consumed |
| `Utf8.DecodeAll` | Includes/rapidjson/encodings.h:123-150 | repeated Decode accepts exactly the UTF8-octets strings, and encoding the result gives the same bytes |
| `Utf8.EncodeIsChar` | Includes/rapidjson/encodings.h:101-121 | what Encode puts for a scalar value is one UTF8-char with that code point, wherever it stands |
| `Utf8.CharIsEncoded` | Includes/rapidjson/encodings.h:101-150 | every UTF8-char spells a scalar value and is what Encode puts for it |
| `Utf8.DecodeAccepts` | Includes/rapidjson/encodings.h:123-150 | from every position, repeated Decode succeeds exactly on the rest of a UTF8-octets string, and re-encoding gives it back |
| `Utf8.DecodeEncode` | Includes/rapidjson/encodings.h:101-150 | repeated Decode inverts Encode on every sequence of scalar values |
| `Utf8.WellFormedIffEncoded` | Includes/rapidjson/encodings.h:101-194 | the accepted strings are exactly the encodings of sequences of scalar values |
| `Dom.ConstructorsCanonical` | Includes/rapidjson/document.h:495-532 | flags and bits of a number depend on its value only, whichever of the four integer constructors built it |
| `Dom.CanonicalInjective` | Includes/rapidjson/document.h:495-532 | no two integers share flags and bits |
| `Document.NumberHandled` | Includes/rapidjson/document.h:1868-1871 | an integer event of any of the four types pushes the same number |
| `Document.AcceptRebuilds` | Includes/rapidjson/document.h:1432-1470 | the events of Accept on any tree without default numbers, doubles included, fed to the document handler, leave its stack as it was plus one value equal to the tree |
| `Document.BuildAppend` | Includes/rapidjson/document.h:1865-1898 | the handler has no memory but its stack |
| `DocumentParse.ParseLeavesOneRoot` | Includes/rapidjson/document.h:1865-1898 | for every text below 4 GiB and every flag no Pop or Top of the handler is out of range, and a successful parse leaves exactly one value |
| `Replay.PushTrace` | Includes/rapidjson/document.h:1865-1898 | a complete value on the handler's stack adds exactly its own events to what the stack tells of the events so far |
| `Replay.CloseTrace` | Includes/rapidjson/document.h:1886-1898 | closing a container turns its opening and its contents into one value without losing an event |
| `Replay.EventsTrace` | Includes/rapidjson/document.h:1865-1898 | at every moment the open levels and the stack tell all events so far, up to the types of integers |
| `Replay.ParseReplays` | Includes/rapidjson/document.h:1432-1470 | for every text below 4 GiB that parses: walking the tree that the document has built delivers the events of the parse again, doubles included, with the same counts; only the type of an integer may be narrower |
| `Replay.SameTreeSameEvents` | Includes/rapidjson/document.h:1740-1751 | two texts have the same tree exactly when their parses deliver the same events, up to the types of integers |
| `Handlers.Document.On` | Includes/rapidjson/document.h:1865-1898 | one event: the new stack, with containers taking their run of values off it |
| `Handlers.Document.ParseStream` | Includes/rapidjson/document.h:1740-1751 | on success the root is the tree that the events stand for, on failure it is null; the stack is empty either way |
| `Handlers.DeepCopy` | Includes/rapidjson/document.h:1929-1955 | the copy equals the original, doubles included |
| `Printing.DigitsDecimal` | Includes/rapidjson/internal/itoa.h:39-299 | the decimal text of a number reads back as the number |
| `Printing.DigitsUnique` | Includes/rapidjson/internal/itoa.h:39-299 | the only decimal text of a number without a leading zero |
| `Itoa.U32toa` | Includes/rapidjson/internal/itoa.h:39-111 | the two-digits-at-a-time code puts exactly the decimal text, without a leading zero, in at most 10 characters |
| `Itoa.I32toa` | Includes/rapidjson/internal/itoa.h:113-121 | the same with a minus sign, also for the smallest value |
| `Itoa.U64toa` | Includes/rapidjson/internal/itoa.h:123-289 | exactly the decimal text, without a leading zero, in at most 20 characters |
| `Itoa.I64toa` | Includes/rapidjson/internal/itoa.h:291-299 | the same with a minus sign, also for the smallest value |
| `Handlers.Writer.Prefix` | Includes/rapidjson/writer.h:317-335 | comma, colon, line break or nothing, as the level and the number of values in it demand; the value is counted |
| `Handlers.Writer.Separate` | Includes/rapidjson/prettywriter.h:146-185 | the separator that the level and its count demand: comma, colon with a blank when indented, line break |
| `Handlers.Writer.BreakLine` | Includes/rapidjson/prettywriter.h:187-190 | nothing in the compact form; in the indented one a line feed and exactly as many indentation characters as levels times count |
| `Layout.IndentedText` | Includes/rapidjson/prettywriter.h:65-190 | the indented text of any tree is what a byte-by-byte indenter, which knows no trees, makes of the compact one: behind each line break as many indentations as containers are open, one fewer in front of the closing bracket; a blank behind a colon; nothing inside strings |
| `Layout.TreeLaidOut` | Includes/rapidjson/prettywriter.h:65-190 | the same for a value at any depth and behind anything |
| `Layout.ContainerLaidOut` | Includes/rapidjson/prettywriter.h:85-135 | the line breaks at the two brackets of a container |
| `Handlers.Writer.WriteString` | Includes/rapidjson/writer.h:244-310 | quotes around the string with each byte escaped where the table demands it |
| `Handlers.Writer.Scalar` | Includes/rapidjson/writer.h:108-140 | separator, text and count of one scalar or name; the text of a double is given with the layout |
| `Handlers.Writer.Start` | Includes/rapidjson/writer.h:134-157 | separator and bracket; a level is opened |
| `Handlers.Writer.End` | Includes/rapidjson/prettywriter.h:93-135 | the level is closed, on a line of its own when it is indented and not empty |
| `Handlers.AcceptWriter` | Includes/rapidjson/writer.h:244-335 | the events of Accept driven into a writer put, behind the separator that is due, exactly the text of the tree, doubles included |
| `WriterSpec.AcceptedPlaces` | Includes/rapidjson/writer.h:134-168 | what the assertions of the writers let through at the root, in an array, and in an object in front of a name and of a value |
| `WriterSpec.AcceptPuts` | Includes/rapidjson/prettywriter.h:65-190 | at any depth, in the compact and the indented form, writing a tree, doubles included, puts its text and advances the counts of the level by one value |
| `WriterSpec.WriterPrints` | Includes/rapidjson/writer.h:108-168 | a whole tree: the text is complete and no level stays open |
| `WriterSpec.BracketsPut` | Includes/rapidjson/prettywriter.h:85-135 | a container is its bracket, its contents and its closing bracket, whatever its contents are |
| `ReadBack.ReadString` | Includes/rapidjson/reader.h:663-724 | a string that the writer has quoted, embedded zero bytes included, is read back byte for byte up to its closing quote |
| `ReadBack.ReadNumber` | Includes/rapidjson/reader.h:771-849 | the decimal text of any 64-bit integer is read back as that integer, in the narrowest type of its sign |
| `ReadBack.ReadTree` | Includes/rapidjson/reader.h:985-997 | the text of any tree, at any place and depth, is parsed into the events of the tree and not a byte further |
| `RoundTrip.TextParses` | Includes/rapidjson/reader.h:392-422 | the text of a tree parses to its end into the events of the tree |
| `RoundTrip.WriteReadSame` | Includes/rapidjson/writer.h:108-168 | write with any layout, read with either parser and any flags, build: the same tree, in types, member order, string bytes and integers |
| `RoundTrip.PrintInjective` | Includes/rapidjson/prettywriter.h:65-190 | different trees have different texts |
| `Reprint.ParsedTree` | Includes/rapidjson/document.h:1740-1751 | what a successful parse without doubles leaves is one tree whose integers are canonical and whose sizes fit |
| `Reprint.ParseWriteParse` | Includes/rapidjson/document.h:1740-1751 | any text that parses without doubles: parse, write with any layout, parse again with any flags; either parser accepts exactly when it does not validate or the tree's strings are well-formed UTF-8, and then the second tree is the first |
| `Reprint.LoneLowNotReread` | Includes/rapidjson/reader.h:690-704 | a text of one lone low surrogate escape passes a validating parser, and what is written of its tree does not |
| `Rereading.ScannedWellFormed` | Includes/rapidjson/reader.h:663-724 | a string that a validating reader accepts is well-formed UTF-8 if and only if no escape in it is a low surrogate outside a pair |
| `Rereading.RefuseString` | Includes/rapidjson/reader.h:663-724 | a string that is not well-formed UTF-8, quoted by the writer, is refused by a validating reader |
| `Rereading.RefuseTree` | Includes/rapidjson/reader.h:985-997 | the text of a tree with such a string or name in it, at any place and depth, is refused by a validating reader |
| `Handlers.WriteAndParse` | Includes/rapidjson/document.h:1432-1470 | the objects together: a tree driven into a writer object and parsed into a document object comes back equal |
| `AsciiStrings.PutCharacter` | Includes/rapidjson/writer.h:263-296 | one character as itself, as an escape, as one \uXXXX or as a surrogate pair; fails exactly on what is no UTF8-char |
| `AsciiStrings.WriteString` | Includes/rapidjson/writer.h:244-310 | with an ASCII target, succeeds exactly on well-formed UTF-8 |
| `AsciiStrings.AsciiOnly` | Includes/rapidjson/writer.h:244-310 | what is put is pure ASCII |
| `AsciiStrings.AsciiRoundTrip` | Includes/rapidjson/reader.h:663-724 | reading it with a UTF-8 target gives the original bytes and stops at the closing quote |
| `Escapes.EscapeSpelled` | Includes/rapidjson/writer.h:246-260 | which bytes leave as a letter behind a backslash, which as \u00 and two upper-case digits, and which as themselves |
| `Escapes.UnicodeSpelledUpper` | Includes/rapidjson/writer.h:270-296 | the escapes of a code point: four upper-case digits, or those of its two surrogates |
| `Escapes.CharacterSpelled` | Includes/rapidjson/writer.h:263-303 | with an ASCII target, bytes below 80 hexadecimal are put as without it, everything else as escapes of its code point |
| `Escapes.WordsPut` | Includes/rapidjson/writer.h:190-202 | the words null, true and false and the empty containers |
| `Words.MulAdd` | Includes/rapidjson/internal/biginteger.h:239-250 | the 128-bit branch: high and low word make up a * b + k |
| `Words.MulAddPortable` | Includes/rapidjson/internal/biginteger.h:252-266 | the portable branch: its hand-made carries give the same two words for all a, b and k |
| `Words.MulHalf` | Includes/rapidjson/internal/biginteger.h:102-109 | one word times a 32-bit factor in halves: no intermediate overflow, exact result and carry |
| `Words.TopDecides` | Includes/rapidjson/internal/biginteger.h:198-207 | the most significant word that differs decides the order of two numbers |
| `Words.Injective` | Includes/rapidjson/internal/biginteger.h:144-146 | a number has one word sequence without leading zero |
| `BigNumbers.ParseWord` | Includes/rapidjson/internal/biginteger.h:229-236 | at most 19 digits: the value, without overflow |
| `BigNumbers.BigInteger.FromDecimal` | Includes/rapidjson/internal/biginteger.h:39-52 | any decimal text that the capacity has room for: exactly its value, no leading zero word |
| `BigNumbers.BigInteger.AppendDecimal64` | Includes/rapidjson/internal/biginteger.h:214-222 | this * 10^n + the n digits, through times 5^n, shift by n and add, whenever this * 5^n leaves a word free |
| `BigNumbers.RoomIsExact` | Includes/rapidjson/internal/biginteger.h:39-52 | the room that is asked for is exact: the word that the last shift writes behind the number lies in the memory if and only if it is there |
| `BigNumbers.SmallHasRoom` | Includes/rapidjson/internal/biginteger.h:39-52 | a number that leaves one word of the capacity free is one there is room for |
| `BigNumbers.ManyDigitsHaveRoom` | Includes/rapidjson/internal/biginteger.h:39-52 | so is every text of up to 7968 digits |
| `BigNumbers.BigInteger.Assign` | Includes/rapidjson/internal/biginteger.h:54-58 | the value of one word |
| `BigNumbers.BigInteger.AddWord` | Includes/rapidjson/internal/biginteger.h:60-75 | adds exactly, with the carry passed on or pushed as a new word, whenever the sum fits |
| `BigNumbers.BigInteger.MulWord` | Includes/rapidjson/internal/biginteger.h:77-93 | multiplies exactly by 64 bits, whenever the product fits |
| `BigNumbers.BigInteger.MulSmall` | Includes/rapidjson/internal/biginteger.h:95-116 | multiplies exactly by 32 bits in halves, whenever the product fits |
| `BigNumbers.BigInteger.ShiftLeft` | Includes/rapidjson/internal/biginteger.h:118-142 | multiplies by the power of two if and only if the distance is no multiple of 64, or the words below the top one already repeat at that distance, as they do for one word; for a multiple of 64 the words behind it are given in any case |
| `BigNumbers.WholeWords` | Includes/rapidjson/internal/biginteger.h:126-129 | the exact condition under which moving only the top word multiplies the number |
| `BigNumbers.ShiftLostExample` | Includes/rapidjson/internal/biginteger.h:126-129 | two words shifted by 64: the upper one is there twice, the lower one is lost, and the value is wrong |
| `BigNumbers.BigInteger.MultiplyPow5` | Includes/rapidjson/internal/biginteger.h:152-172 | multiplies by the power of five in steps of 27, 13 and a table |
| `BigNumbers.BigInteger.Equals` | Includes/rapidjson/internal/biginteger.h:144-146 | same words exactly when same value |
| `BigNumbers.BigInteger.Compare` | Includes/rapidjson/internal/biginteger.h:198-207 | the sign of the difference of the values |
| `BigNumbers.BigInteger.Difference` | Includes/rapidjson/internal/biginteger.h:174-196 | which operand is larger; the result is the absolute difference plus what the missed borrows amount to, which is nothing if and only if no all-ones word of the smaller operand meets a borrow |
| `BigNumbers.BigInteger.Subtract` | Includes/rapidjson/internal/biginteger.h:183-193 | the borrow loop: the words it computes one by one, which denote the difference plus what is missed, which is nothing if and only if no all-ones word meets a borrow; no leading zero word |
| `BigNumbers.BorrowLostExample` | Includes/rapidjson/internal/biginteger.h:183-193 | three words minus two words where a borrow is missed: the true difference is one word, and the three words that the loop computes |
| `DiyFloat.Multiply` | Includes/rapidjson/internal/diyfp.h:71-78 | the 128-bit branch: the product divided by 2^64, halves rounded up, without overflow |
| `DiyFloat.MultiplyPortable` | Includes/rapidjson/internal/diyfp.h:79-92 | the portable branch gives the same significand and exponent for all operands |
| `DiyFloat.RoundedIsNearest` | Includes/rapidjson/internal/diyfp.h:64-93 | that significand is the nearest one, the upper one of two equally near |
| `DiyFloat.Normalize` | Includes/rapidjson/internal/diyfp.h:103-110 | the same number with the top bit set |
| `DiyFloat.NormalizeBoundary` | Includes/rapidjson/internal/diyfp.h:113-122 | the same number with all 64 bits in use, for a significand of at most 54 bits |
| `HalfUlp.Adjust` | Includes/rapidjson/internal/strtod.h:61-95 | the branches on signs leave three exponents that share one factor, with no common power of two |
| `HalfUlp.SameSign` | Includes/rapidjson/internal/strtod.h:61-95 | comparing the three scaled integers is comparing the three rational numbers |
| `HalfUlp.MultiplyAndShift` | Includes/rapidjson/internal/strtod.h:97-104 | times 5^a and 2^b, for every number whose shift is exact |
| `HalfUlp.CompareGap` | Includes/rapidjson/internal/strtod.h:106-109 | the sign of the distance of the two scaled numbers, plus what is missed, minus the scaled half unit |
| `HalfUlp.MissedIsLost` | Includes/rapidjson/internal/strtod.h:106-109 | what the subtraction misses is nothing exactly when no all-ones word of the smaller scaled number meets a borrow |
| `HalfUlp.CheckWithinHalfULP` | Includes/rapidjson/internal/strtod.h:55-110 | the sign of the distance of d * 10^dExp and b minus half an ulp of b, if and only if what the subtraction misses does not move the difference to the other side of the half ulp |
| `DigitGenerator.CountDecimalDigit32` | Includes/rapidjson/internal/dtoa.h:43-57 | the number of decimal digits, for numbers below 10^9 |
| `DigitGenerator.GrisuRound` | Includes/rapidjson/internal/dtoa.h:34-41 | takes units off the last digit, never below the character 0, until what is left is as near to wp_w as any number of units within delta |
| `DigitGenerator.IntegerPart` | Includes/rapidjson/internal/dtoa.h:66-89 | the first loop: ends at the highest place where what is left is within delta, with the nearest number of the interval to W that ends there, or hands all digits on |
| `DigitGenerator.FractionPart` | Includes/rapidjson/internal/dtoa.h:93-107 | the second loop: ends at the first place where what is left is below the scaled delta, without overflow, with the nearest number of the interval to W that ends there, if the table of ten powers is not left |
| `DigitGenerator.DigitGen` | Includes/rapidjson/internal/dtoa.h:59-108 | ends without leaving 64 bits and inside the buffer; how many digits there are, exactly; they have no leading zero and denote a number between Mp - delta and Mp; the table of ten powers is not left if and only if the digits may end by the ninth of the fraction, and then, for a W in the interval, no number of the interval that ends at the same place is nearer to W |
| `DigitGenerator.Shortest` | Includes/rapidjson/internal/dtoa.h:66-107 | no number that ends at a higher place lies between Mp - delta, which is excluded, and Mp: the digits are as few as can be |
| `DigitGenerator.TableIndex` | Includes/rapidjson/internal/dtoa.h:60-104 | the index of the look-up is at most 9 exactly when what is left is within the error bound in the integer part or by the ninth fraction digit |
| `DigitGenerator.TableGuard` | Includes/rapidjson/internal/dtoa.h:60-104 | it is at most 9 when the error bound is at least one unit in the ninth fraction digit |
| `DigitGenerator.TableTooShort` | Includes/rapidjson/internal/dtoa.h:60-104 | an input within the contract for which it is not |
| `DigitGenerator.RoomFor28` | Includes/rapidjson/internal/dtoa.h:59-108 | 28 characters are enough for every error bound |
| `DigitGenerator.RoomFor25` | Includes/rapidjson/writer.h:236-242 | the writer's 25 characters are enough for an error bound of one unit in the 16th fraction digit |
| `PoolAllocator.AlignWorks` | Includes/rapidjson/rapidjson.h:243-245 | rounding up to a multiple of four, if and only if the size is below 2^32 - 3 |
| `PoolAllocator.MemoryPoolAllocator.Malloc` | Includes/rapidjson/allocators.h:167-178 | a new live block in bounds, at a multiple of four, apart from all live blocks; nothing for size zero; it is cut off the front chunk if that has room for the rounded size, and exactly if not off a new chunk in front, as large as the pool's chunks are or as the block when that is larger; nothing else is used up |
| `PoolAllocator.MemoryPoolAllocator.Realloc` | Includes/rapidjson/allocators.h:181-205 | the block keeps its contents up to the smaller size, every other live block keeps its bytes, and it grows in place if and only if it is the last block of the front chunk and there is room; what it takes of the chunks is nothing, the rounded growth, or a new block as Malloc's |
| `PoolRuns.Run` | Includes/rapidjson/allocators.h:167-205 | any run of Malloc, Realloc and stores by the callers: every block is live, in bounds, at a multiple of four and at a place of its own, and holds what its caller has stored in it, as if it were alone; requests whose rounded sizes fit together in the chunk size are all served from one chunk of that size |
| `PoolRuns.AllocateThenGrow` | Includes/rapidjson/allocators.h:167-205 | a block just asked for grows in place exactly when its size was a multiple of four and the rounded new size has room in its chunk; the first chunk has the chunk size of the pool, or the rounded size if larger |
| `PoolRuns.JustAllocated` | Includes/rapidjson/allocators.h:189-196 | the test for the last block fails behind any size that was rounded up |
| `PoolRuns.ApartIsDisjoint` | Includes/rapidjson/allocators.h:167-205 | no two blocks of such a run overlap |
| `PoolAllocator.MemoryPoolAllocator.AddChunk` | Includes/rapidjson/allocators.h:219-227 | one new chunk in front, the others behind it as they were |
| `PoolAllocator.MemoryPoolAllocator.Capacity` | Includes/rapidjson/allocators.h:149-154 | the sum over the list of chunks |
| `PoolAllocator.MemoryPoolAllocator.Size` | Includes/rapidjson/allocators.h:159-164 | the sum over the list of chunks |
| `PoolAllocator.TotalsOfFront` | Includes/rapidjson/allocators.h:149-164 | a chunk in front of others adds its capacity and its used bytes to the sums |
| `ByteStack.Stack.Push` | Includes/rapidjson/internal/stack.h:100-110 | room for any number of bytes on top, everything below untouched; memory is allocated anew exactly when there is none yet or no byte would be left over, and then has the size that Expand gives |
| `ByteStack.Stack.Pop` | Includes/rapidjson/internal/stack.h:112-117 | the bytes that were on top, the rest stays |
| `ByteStack.Stack.Top` | Includes/rapidjson/internal/stack.h:119-123 | the bytes on top |
| `ByteStack.Stack.Expand` | Includes/rapidjson/internal/stack.h:133-150 | the initial capacity, or half as much again rounded up, or what is needed when that is more; contents kept |
| `ByteStack.Stack.Resize` | Includes/rapidjson/internal/stack.h:152-157 | another block of the given capacity with the same contents |
| `ByteStack.Stack.ShrinkToFit` | Includes/rapidjson/internal/stack.h:86-96 | nothing is lost, nothing is spare |
| `ByteStack.Stack.HoldString` | Includes/rapidjson/reader.h:612-661 | a string pushed byte by byte comes off whole and leaves what was saved below as it was |
| `RingBuffer.RingBuff.constructor` | util/RingBuff.cpp:13-19 | empty, four bytes, all zero |
| `RingBuffer.RingBuff.LeftSize` | util/RingBuff.cpp:26-36 | capacity minus live bytes |
| `RingBuffer.RingBuff.DataSize` | util/RingBuff.cpp:38-41 | the number of live bytes |
| `RingBuffer.RingBuff.AppendSize` | util/RingBuff.cpp:43-69 | twice the size, from 1025 bytes on four bytes more; the same live bytes at the front and zeros behind |
| `RingBuffer.RingBuff.AddData` | util/RingBuff.cpp:170-199 | the data is appended to the queue, across the end and across growth; the buffer grows only as far as needed to keep two bytes free, so the head never meets the tail |
| `RingBuffer.RingBuff.DelData` | util/RingBuff.cpp:71-105 | drops the first bytes and zeroes them, or refuses none and too many |
| `RingBuffer.RingBuff.Step` | util/RingBuff.cpp:107-110 | moves the tail without a test: the first bytes are dropped and the others stay, if and only if there are so many |
| `RingBuffer.RingBuff.ReadBegin` | util/RingBuff.cpp:112-140 | the first bytes, across the end |
| `RingBuffer.RingBuff.ReadDelBegin` | util/RingBuff.cpp:142-168 | the first bytes, which are then dropped |
| `RingBuffer.Run` | util/RingBuff.cpp:26-199 | over any run of operations the ring answers and holds what a queue of bytes does; without Step every byte outside the live window is zero |
| `Frames.LineBuffer.AppendSize` | util/LineBuffer.cpp:30-67 | doubled as often as needed and not more often; without a need twice the size, or 4096 bytes more from 512 KiB on; contents kept, the rest zero |
| `Frames.LineBuffer.CleanData` | util/LineBuffer.cpp:70-73 | all zero |
| `Frames.Write` | util/SocketOp.cpp:192-206 | hands on exactly the frame: length, id and user in little-endian, then the payload; the rest of the write buffer is zero |
| `Frames.ParsePackage` | msgs/MsgCenter.cpp:186-244 | returns and leaves what the parsing function says of the buffered bytes; bytes outside the live window stay zero |
| `Frames.Receive` | msgs/MsgCenter.cpp:186-244 | a socket fed in chunks, with a call behind each: the frames and the rest of the session function |
| `Frames.Le32Inverse` | util/SocketOp.cpp:202-204 | four bytes of a 32-bit number give it back |
| `Frames.FrontOfEncoded` | msgs/MsgCenter.cpp:193-240 | a sent frame in front of anything is found, with id, user and payload |
| `Frames.FrontIsFrame` | msgs/MsgCenter.cpp:193-240 | a frame is found if and only if its encoding stands in front and its payload has 2 to 2048 bytes |
| `Frames.WrongLengthIsFinal` | msgs/MsgCenter.cpp:205-209 | a length is refused exactly when no frame can start with it, whatever else arrives |
| `Frames.ByteOrder` | util/SocketOp.cpp:202-204 | byte i of a number on the line is its digit to the base 256 at place i |
| `Frames.FrontOfPart` | msgs/MsgCenter.cpp:193-215 | every proper beginning of a sent frame is left alone |
| `Frames.FramesOfEncoded` | msgs/MsgCenter.cpp:193-240 | frames sent one behind the other are found in order, and what follows them is untouched |
| `Frames.FramesAppend` | msgs/MsgCenter.cpp:193-240 | more bytes change nothing about the frames already there |
| `Frames.PackageTakes` | msgs/MsgCenter.cpp:193-240 | one call takes frames in order and loses none but those with unknown ids |
| `Frames.Conservation` | msgs/MsgCenter.cpp:186-244 | for every byte stream however cut: what the calls returned, followed by the known frames still buffered, are the known frames of the stream, in order, each once |
| `Frames.ChunkingIndependent` | msgs/MsgCenter.cpp:186-244 | how a stream is cut does not matter if and only if no frame but the last has an unknown id |
| `Frames.UnknownShows` | msgs/MsgCenter.cpp:228-233 | otherwise two ways of cutting the same stream give different sessions |
| `Frames.StreamParsed` | msgs/MsgCenter.cpp:186-244 | of any arrived part of a stream of known frames, the complete ones have been returned in order and only the beginning of the next one is buffered |
| `Queues.FlowSteps` | server/Logic/LogicWorker.cpp:131-165 | push, move, swap and handle neither lose, duplicate nor reorder |
| `Queues.RunKept` | server/Logic/LogicWorker.cpp:131-165 | in every interleaving of the I/O thread and any number of workers: the messages that the run's steps route to a worker are those handled, in its batch, in its inbox and in the I/O list, in order, and the replies its handlers give are those sent, fetched, shared and unpublished, in order |
| `Queues.PrefixesHold` | server/Logic/LogicIO.cpp:164-230 | at every moment a worker has handled a prefix of what the steps routed to it, and a prefix of the replies its handlers gave has been sent |
| `Queues.QuietDelivers` | server/Logic/LogicIO.cpp:164-230 | when nothing is under way, everything the steps routed has been handled and every reply given has been sent, once each and in order |
| `Queues.EverythingArrives` | server/Logic/LogicIO.cpp:164-230 | from every state that a run reaches, steps that bring nothing new lead to one where nothing is under way: nothing gets stuck, everything routed is handled and every reply is sent |
| `Queues.OfAppend` | server/Logic/LogicIO.cpp:188-203 | what two parts of a run route and answer is put together in order |
| `Queues.WorkerStep` | server/Logic/LogicWorker.cpp:131-165 | from where to where each step of a worker moves messages and replies |
| `Queues.SharedStep` | server/Logic/LogicIO.cpp:217-230 | what each step does to the shared replies and those on their way out; it changes no other worker |
| `Queues.WhenEnabled` | server/Logic/LogicWorker.cpp:131-165 | when each step is possible: the I/O thread may always route and notify, a worker may wake at any time |
| `Queues.RunSteps` | server/Logic/LogicWorker.cpp:131-165 | a run goes on exactly with the steps that are possible |
| `Queues.GateRunKept` | server/Gate/GateIO.cpp:172-189 | the events that the run's steps push for a worker are those handled, in its batch, in its inbox and in the I/O list, in order |
| `Queues.GateStations` | server/Gate/GateWorker.cpp:147-172 | from where to where each step of the gate moves events |
| `Queues.GateWhenEnabled` | server/Gate/GateIO.cpp:172-189 | when each step of the gate is possible |
| `Queues.GateRunSteps` | server/Gate/GateWorker.cpp:147-172 | a run of the gate goes on with the steps that are possible |
| `LogicServer.MutexList.AddOne` | util/MutexList.hpp:32-36 | one more at the end |
| `LogicServer.MutexList.AddMore` | util/MutexList.hpp:37-41 | all at the end, in order |
| `LogicServer.MutexList.GetOne` | util/MutexList.hpp:43-56 | the oldest, or nothing from an empty list |
| `LogicServer.MutexList.GetMore` | util/MutexList.hpp:58-66 | all of them, and the list is empty |
| `LogicServer.LogicWorker.NotifyMsgIn` | server/Logic/LogicWorker.cpp:157-165 | the I/O list goes behind the inbox and is empty; the move of the queue law |
| `LogicServer.LogicWorker.TakeMsgs` | server/Logic/LogicWorker.cpp:131-141 | the inbox becomes the batch and is empty; the swap of the queue law |
| `LogicServer.LogicWorker.HandleBatch` | server/Logic/LogicWorker.cpp:144-147 | every message of the batch is handled, in order; the replies are those of the handlers, in order; the flow is as before |
| `LogicServer.AnswersInOrder` | server/Logic/LogicWorker.cpp:144-147 | the answers of a batch are those of its messages one behind the other |
| `LogicServer.LogicWorker.HandlerReply` | server/Logic/LogicWorker.cpp:151-155 | the replies go behind the shared ones, and the worker's list is empty |
| `LogicServer.Fewest` | server/Logic/LogicIO.cpp:149-160 | the first of the workers with the fewest users |
| `LogicServer.Choice` | server/Logic/LogicIO.cpp:138-161 | the first worker that serves the user; when none does, the first of those with the fewest users |
| `LogicServer.LogicIO.GetWorker` | server/Logic/LogicIO.cpp:138-161 | the first worker that serves the user, else the first with the fewest users, else none |
| `LogicServer.LogicIO.RouteAll` | server/Logic/LogicIO.cpp:188-203 | every message but the answers to the verification is appended to the list of the worker chosen for its user, in order, and to no other, whatever user sets the routing finds at each message |
| `LogicServer.LogicIO.NotifyAll` | server/Logic/LogicIO.cpp:206-214 | every worker's list is moved, an empty one needs nothing |
| `LogicServer.LogicIO.HandlerWorkerMsgs` | server/Logic/LogicIO.cpp:217-230 | all shared replies are sent, in order, once |
| `GateServer.ConnectionsInOrder` | server/Gate/GateWorker.cpp:147-172 | in every run the connections set up are the first of those pushed for the worker, in order |
| `GateServer.ConnectsAppend` | server/Gate/GateWorker.cpp:159-171 | the connect events of a list are those of its parts one behind the other |
| `GateServer.Worker.MoveIoEventToIn` | server/Gate/GateWorker.cpp:330-334 | the I/O list goes behind the inbox and is empty; the move of the queue law |
| `GateServer.Worker.TakeEvents` | server/Gate/GateWorker.cpp:147-157 | the inbox becomes the batch and is empty; the swap of the queue law |
| `GateServer.Worker.HandleEvents` | server/Gate/GateWorker.cpp:159-171 | a connection for each connect event of the batch, in order; other events are dropped |
| `GateServer.NotifyWorkers` | server/Gate/GateIO.cpp:172-189 | every worker's events are moved, nothing else changes |
| `GenericReader.Reader.PopFrame` | Includes/rapidjson/reader.h:1316-1360 | the saved state and the count of the frame that closes, counting a last element or member that no comma follows |
| `GenericReader.Reader.TransitBracket` | Includes/rapidjson/reader.h:1240-1365 | the moves that open and close containers |
| `GenericReader.Reader.ParseSingle` | Includes/rapidjson/reader.h:1286-1300 | where a scalar is predicted, ParseValue never opens a container |
| `Handlers.Writer.PutEscaped` | Includes/rapidjson/writer.h:293-306 | one byte as itself or as its escape |
| `Handlers.Writer.On` | Includes/rapidjson/writer.h:108-168 | one event of any kind: the state of the writing function |
| `Handlers.CopyContainer` | Includes/rapidjson/document.h:1936-1941 | a container copied through events equals the original |
| `BigNumbers.BigInteger.FromWord` | Includes/rapidjson/internal/biginteger.h:35-37 | the value of one word, in a memory of 416 words |
| `BigNumbers.BigInteger.Copy` | Includes/rapidjson/internal/biginteger.h:31-33 | the value of the other number, in memory of its own |
| `BigNumbers.BigInteger.IsWord` | Includes/rapidjson/internal/biginteger.h:148-150 | true exactly when that is the value |
| `BigNumbers.BigInteger.PushBack` | Includes/rapidjson/internal/biginteger.h:224-227 | one more word at the top |
| `PoolAllocator.MemoryPoolAllocator.constructor` | Includes/rapidjson/allocators.h:103-106 | no chunk, no live block |
| `PoolAllocator.MemoryPoolAllocator.WithBuffer` | Includes/rapidjson/allocators.h:118-127 | the user's buffer as the only chunk, unused |
| `PoolAllocator.MemoryPoolAllocator.Cut` | Includes/rapidjson/allocators.h:175-177 | the block cut off the front chunk overlaps no live one |
| `ByteStack.Stack.constructor` | Includes/rapidjson/internal/stack.h:34-36 | empty, nothing allocated |
| `ByteStack.Stack.Clear` | Includes/rapidjson/internal/stack.h:84 | empty |
| `RingBuffer.RingBuff.Put` | util/RingBuff.cpp:177-196 | the data behind the head, across the end, without touching live bytes |
| `RingBuffer.RingBuff.Erase` | util/RingBuff.cpp:79-99 | the first live bytes become zero, across the end, and no other |
| `Frames.LineBuffer.constructor` | util/LineBuffer.cpp:11-18 | 256 zeros |
| `Frames.TakeFrame` | msgs/MsgCenter.cpp:217-226 | header and payload of a frame of known length, taken off the buffer; the parse buffer is zero behind the payload |
| `LogicServer.LogicWorker.PushIo` | server/Logic/LogicIO.cpp:201-202 | the push of the queue law |
| `LogicServer.LogicIO.RouteOne` | server/Logic/LogicIO.cpp:201-202 | the message goes to the chosen worker and to no other |
| `GateServer.Worker.PushIo` | server/Gate/GateIO.cpp:349-354 | the push of the queue law |

## Left out

- The fraction and exponent parts of ParseNumber: what they deliver is a parameter of the reading functions; only that they take at least one byte is assumed, and for `Respacing.BlanksDoNotMatter` that a double ends behind its digits and does not depend on what is behind it.
- Floating-point arithmetic: FastPath, StrtodDiyFp, StrtodBigInteger's choice, the cached powers, Grisu2's boundaries, Prettify and WriteDouble; the text of a double is a parameter of the writers' layout, and its significand and exponent are parameters of the half-ulp test.
- The offsets of parse errors: the two parsers report different ones.
- Layout.IndentedText: stated for texts of doubles that are not empty and have no bracket, comma, colon or quote in them; that text is a parameter of the layout.
- In-situ parsing, SIMD whitespace skipping, UTF-16 and UTF-32, byte order marks, file streams.
- Copied, constant and short strings: the model keeps the bytes of a string only.
- The depth of the C++ call stack in recursive descent; the model's recursion is unbounded.
- Texts and strings of 4 GiB and more where a document is built: counts are 32-bit and wrap there, as they do in the model's events.
- Writer and PrettyWriter are one class with a format; a Writer with an empty level stack accepts one root, as the source asserts.
- Accept with a handler that refuses: the events are listed first and then driven into a handler that accepts.
- Events reach the Document when the parse has ended, in their order; its handler never refuses, so nothing depends on it.
- Name and value are two pushes on the document's stack, and a member is read back as a pair of them.
- ParseValue of the iterative parser on a bracket cannot happen and is not modelled beyond showing that.
- HalfUlp.CheckWithinHalfULP: stated for two sides that differ and for shifts that are exact, which the function asserts or relies on.
- DigitGenerator.DigitGen: stated for the exponents and integer parts that Grisu2's choice of a cached power gives, and for a buffer with room for the digits; which error bounds Grisu2 computes for a double, and so whether `TableGuard` and `RoomFor25` apply to it, is not shown.
- RingBuffer.Run: stated for runs in which Step drops no more bytes than there are; nothing in the repository calls it with more.
- LogicServer.LogicIO.RouteAll: stated for at least one worker and fewer than UINT_MAX users each, since the source uses the chosen worker without a test.
- BigNumbers.BigInteger.FromDecimal: stated for the texts there is room for; for any other the source writes behind its memory.
- PoolAllocator.MemoryPoolAllocator.Malloc: stated, like Realloc and the runs, for sizes below 2^32 - 3, the exact range in which rounding up works; failure of the base allocator is not modelled, nor is Clear.
- Sockets, epoll, send and the partial writes it handles, logging, threads' start and stop, and the wake-up condition: a wait may end at any time; that every message can still arrive is stated, not that a scheduler lets it.
- The messages' contents: a frame's payload is opaque, known ids are a predicate, and a handler's replies are any list. The source cuts the payload at its first zero byte before it is parsed; the model keeps the bytes of the parse buffer.
- User management, login and the maps of connections.
- LogicServer.LogicIO.GetWorker: reads each worker's user count once, where the source reads it twice under the worker's lock.
