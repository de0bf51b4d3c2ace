# Verification of the JSON library and of the bots' puzzles and stores

The two Discord bots of this repository are built on a copy of JsonCpp (`jsoncpp.cpp`) and on string
and number code of their own (`LabyrinthBot.cpp`, `QasinoHeader.h`, `discord.h`, `dirent.h`). This
project models that code in Dafny and proves what it computes. Run `dafny verify dfyconfig.toml` here.

## How the model is laid out

**The reader.** `Scanner` and `ReaderSpec` give the parser `OurReader` as functions of the document, the
position, the errors so far and the value being filled: one function for each loop or switch of the
source. `Reader.OurReader` is the parser itself, a class with the cursor, the stack of nodes (pointers
into a tree, kept as access paths: `AccessPaths`), the error list and the root value; its methods are
proved against those functions. `Grammar` states sections 2 to 7 of RFC 8259 as trees, together with the
extensions of the library (comments, last commas, dropped nulls, single quotes, special floats, numeric names,
looser numbers): the text of a tree, the value it denotes (with its spans) and what makes it valid; `Standard` trees
are those of the RFC. On top of these stand `Completeness` (every such text is read), `Verdicts` (exactly which
ones under which settings, and what stops the others), `Extensions` (a text with extensions means what the text
without them means), `Soundness` (nothing is accepted that is not of a form spelled out there), `Totality` (the
outcome on every byte string), `Locality`, `LocalReading` and `Spans` (the bytes of a node, parsed alone, give the
node back).

**The writers.** `Canonical` gives the tree that a value is written as; `FastWriting`, `StyledWriting` and
`BuiltStyledWriting` are the three writers as classes that append to a document, with the one-shot cache of
child texts and the indentation. `Layouts` states which whitespace the two styled ones write where, and each of
them is proved to write exactly that. `Tidiness` says what this means for anyone who reads the finished text byte by
byte: how lines are indented, and where they end. `RoundTrip` proves that the reader undoes any layout, `Dropping`
what comes back when nulls are not written, `Truncation` that names cut at a NUL never come back, and `Documents`
runs each writer and the reader one after the other.

**Values.** `JsonValues` is `Json::Value` with its ordered map, `ValueOrder` its comparisons, `Numbers` its
integers as text (with the 64-bit arithmetic of the source), `Strings` and `Utf8` its string literals,
`SparseArrays` its array operations (with 32-bit indices), `JsonPaths` its `Path`.

**The bot.** `UpDown` and `RootTwo` are the two guessing games, with `Decimals` for digit strings of any
length; undefined behaviour of C++ is an answer of its own, so that the contracts say exactly when it
happens. `HexNames`, `QuestionFiles` and `QuestionStore` are the question store, `Replacing` the two
`ReplaceAll` functions, `VersionOrder` is `strverscmp`, `Deck` the card decks.

Two devices recur. Loops and recursions of the source are methods proved against functions, and the theorems
are lemmas about the functions. `hide` statements keep the proofs small; they have no other meaning.

## What the code does where one might expect otherwise

- The reader accepts more than RFC 8259: `+1`, `01`, a lone `-`, comments in containers even when
  comments are off, a trailing comma after an empty name, an unterminated `/*` comment at the end of the
  text if its last byte is a slash, control characters in strings, any code unit as the second half of a surrogate
  pair, any token where a comma is due after a comment. `Soundness` has all of this in its forms, and no more.
- A null that is not written and stands alone in its array leaves `[]`, which is read as an empty array.
- `utf8ToCodepoint` does not look at the high bits of the bytes behind a lead byte, and lets codes beyond 0x10FFFF
  pass; `CodepointRepaired` says what it makes of any bytes.
- A parse that fails records one error, or two when something follows the root value as well; a parse
  that throws, or does not return, records none.
- An unsigned value up to 2^63 - 1 is read back as a signed one.
- `StyledWriter` writes member names through `c_str()`; `CutNames` says exactly when that shows.
- `Value::resize` asserts when it shrinks an array whose new last element is missing, and `removeIndex` of
  the last element can shorten a sparse array by more than one; both conditions are exact here.
- At 2^32 elements `Value::size()` wraps to 0. The array contracts say what each operation then does; the
  writers write such an array as `[]`, and the round trip says exactly when that loses something.
- A string value has at most 2147483642 bytes. For a longer one the reader throws; but the length is taken in 32
  bits first, so that 2^32 bytes read as none. `Stored` and `MAX_STRING` say this, and so `Denote` cuts such strings.
- `ReadQuestion` prints each line through `hexprint`, whose buffer of 1000 bytes holds the digits of 499. Longer
  lines, which the bot writes without complaint, are undefined behaviour when they are read; `ReadFile` is `None`
  there. The empty string after the last line makes `hexprint` return what its unset buffer holds, up to 127 bytes.
- `strverscmp` passes plain `char`s to `isdigit`, which C leaves undefined for negative ones. Bytes from 0x80 up are
  no digits here.
- The reader counts the elements of an array in an `int`. Where that overflows, the outcome is `Undefined`.
- `hexprint` cuts its output at 127 digits, so that names longer than 63 bytes do not come back, and some of
  them share a file. `QuestionList` relies on server ids of 18 characters.
- `card::num` gives a joker a number one above the one `numberToCard` made it from.
- `.14updown` tells ratios of two numbers beyond the largest int to go up, also those above the root.
- The `.14updown` answer for a decimal that starts with all the known decimals of the root, and goes on, is
  always DOWN, also where the decimal is below the root.

## Model

| member | source | states |
|---|---|---|
| JsonValues.StringOrder | jsoncpp.cpp:2721-2736 | the comparison of names, memcmp over the common length and then the length, is asymmetric and total |
| JsonValues.StringLessTransitive | jsoncpp.cpp:2721-2736 | and transitive |
| JsonValues.PutFind | jsoncpp.cpp:3357-3364 | assigning at a key changes what that key holds and nothing else |
| JsonValues.EraseFind | jsoncpp.cpp:3624-3646 | erasing a key removes that key and nothing else, and keeps the order |
| ValueOrder.LessMeans | jsoncpp.cpp:2916-2964 | operator< holds exactly where the left value comes first: kinds in the order of ValueType, numbers by value, false before true, strings by the first differing byte or the shorter prefix, containers by their count and then by the first position whose key or value differs |
| ValueOrder.CompareMeans | jsoncpp.cpp:2908-2914 | compare is -1, 1 or 0 as the one value comes first, the other does, or neither |
| ValueOrder.EqualMeans | jsoncpp.cpp:2972-3012 | operator== holds exactly for values of one kind with the same content, containers entry by entry |
| ValueOrder.EqualReflexive | jsoncpp.cpp:2972-3012 | a value equals itself exactly when it holds no NaN |
| ValueOrder.Trichotomy | jsoncpp.cpp:2916-3012 | on values without NaN, exactly one of less, equal, greater holds, through nested arrays and objects |
| ValueOrder.Transitive | jsoncpp.cpp:2916-2964 | operator< is transitive, also when one of the two steps is equality |
| ValueOrder.CompareZeroIffEqual | jsoncpp.cpp:2908-2914 | compare is 0 exactly for equal values and changes sign with its arguments |
| ValueOrder.NaNBreaksCompare | jsoncpp.cpp:2908-2914 | with a NaN, compare is 0 for values that are not equal |
| Numbers.UintToString | jsoncpp.cpp:167-173 | writes the shortest decimal digits and a NUL backwards into the buffer, and changes nothing else in it |
| Numbers.FitsBuffer | jsoncpp.cpp:153-173 | no 64-bit value needs more than 20 digits, so the 25-byte buffer is never overrun |
| Numbers.UnsignedToString | jsoncpp.cpp:4184-4190 | valueToString of an unsigned value is its digits |
| Numbers.SignedToString | jsoncpp.cpp:4168-4182 | valueToString of a signed value, also of the smallest, whose negation would overflow |
| Numbers.IntegerDecodingExact | jsoncpp.cpp:1800-1878 | an optional minus and digits decode to an integer exactly when it lies in [-2^63, 2^64 - 1], and to that integer |
| Numbers.Decode | jsoncpp.cpp:1800-1878 | the decoding loop computes this in 64-bit arithmetic without overflow |
| Numbers.DecodeOld | jsoncpp.cpp:785-826 | the loop of the older Reader gives the same number, signed only up to 2^31 - 1 |
| Numbers.DecodeShown | jsoncpp.cpp:4168-4190 | decoding inverts valueToString |
| Utf8.CodepointOfSequence | jsoncpp.cpp:4262-4311 | on every well-formed sequence of RFC 3629 utf8ToCodepoint finds its scalar value and its length, and the value encodes to those bytes |
| Utf8.EncodeWellFormed | jsoncpp.cpp:125-151 | codePointToUTF8 of a scalar value is one well-formed sequence of RFC 3629 |
| Utf8.CodepointRepaired | jsoncpp.cpp:4262-4311 | for any bytes at all: what utf8ToCodepoint reports and how many bytes it passes over, as the scalar value that the bytes, repaired to tails, encode, or the replacement character |
| Strings.DecodeEscapeSequence | jsoncpp.cpp:1996-2020 | the loop over four hex digits computes the code unit or the right error |
| Strings.DecodeCodePoint | jsoncpp.cpp:1971-1994 | joins surrogate halves, without checking the second |
| Strings.DecodeBody | jsoncpp.cpp:1918-1969 | decodeString computes the unescaped text or the first fault |
| Strings.UnescapeLiteral | jsoncpp.cpp:1918-1969 | every string literal of the RFC 8259 grammar decodes to the string it denotes |
| Strings.ValueToQuotedString | jsoncpp.cpp:4349-4424 | the quoting loop writes the literal, and its scan never passes the end of the string |
| Strings.QuoteValid | jsoncpp.cpp:4349-4424 | the literal is valid JSON for every byte string |
| Strings.QuotePrintable | jsoncpp.cpp:4349-4424 | without emitUTF8 only bytes 0x20 to 0x7F are written, even for malformed input |
| Strings.QuoteConcat | jsoncpp.cpp:4349-4424 | a string is quoted piece by piece |
| Strings.QuoteByte | jsoncpp.cpp:4349-4424 | what each single byte is quoted as: the seven short escapes, lower-case hexadecimal for other control characters, itself otherwise |
| Strings.StringRoundTrip | jsoncpp.cpp:4349-4424 | decoding what was quoted gives the string back: always with emitUTF8, otherwise exactly for well-formed UTF-8 |
| Reader.OurReader.SkipBom | jsoncpp.cpp:1517-1525 | skips a UTF-8 byte order mark when asked to |
| Reader.OurReader.ReadString | jsoncpp.cpp:1660-1682 | the scan of a string in either kind of quotes ends after the closing quote or at the end of the text |
| Reader.OurReader.ReadNumber | jsoncpp.cpp:1634-1658 | the scan of a number: digits, fraction, exponent, or the start of an infinity |
| Reader.OurReader.ReadComment | jsoncpp.cpp:1538-1570 | the scan of a comment of either kind |
| Reader.OurReader.ReadToken | jsoncpp.cpp:1396-1505 | the token at the cursor for every byte and every feature setting; it fails exactly on an error token |
| Reader.OurReader.SkipCommentTokens | jsoncpp.cpp:1386-1394 | the next token that is no comment, or any token when comments are off |
| Reader.OurReader.RecoverFromError | jsoncpp.cpp:2031-2042 | stops at a token of the given kind or at the end, keeping only the errors from before |
| Reader.OurReader.ReadScalar | jsoncpp.cpp:1306-1376 | fills the current node from a token that opens no container, records one error, or throws for a string longer than a Value can hold |
| Reader.OurReader.ReadValue | jsoncpp.cpp:1294-1384 | assigns to the node on top of the stack exactly what the specification reads, leaves the stack as it was, throws only at the nesting limit or for a name or a string that is too long |
| Reader.OurReader.ReadObject | jsoncpp.cpp:1684-1746 | the member loop: names, colons, commas, duplicate names, recovery |
| Reader.OurReader.ReadArray | jsoncpp.cpp:1748-1788 | the element loop: indices counted in an int, trailing commas, dropped nulls, recovery |
| Reader.OurReader.Parse | jsoncpp.cpp:1248-1292 | the cursor stays in the text, the stack within its limit and empty after a return; success leaves no error, failure one or two |
| Totality.ValueAccounted | jsoncpp.cpp:1294-1384 | however deep the recovery, a failed value adds exactly one error and a successful one none |
| Totality.MembersAccounted | jsoncpp.cpp:1684-1746 | the same for the members of an object |
| Totality.ElementsAccounted | jsoncpp.cpp:1748-1788 | the same for the elements of an array |
| Totality.ParseTotal | jsoncpp.cpp:1248-1292 | parsing stops inside the text for every byte string and feature setting, with the errors accounted for and every map in order; the count of an array's elements never overflows in a text below 2^31 bytes |
| Totality.RecoverStops | jsoncpp.cpp:2031-2042 | after an error the reader goes on behind the first token of the kind it looks for, or at the end |
| Completeness.GapSkipped | jsoncpp.cpp:1386-1394 | whitespace and comments of both kinds before a token are passed over |
| Completeness.ReadTree | jsoncpp.cpp:1294-1384 | reading a tree of the grammar with extensions inside a document ends as the first obstacle in it says, and if there is none, behind its text with the value it denotes, spans included |
| Completeness.ReadMembersTree | jsoncpp.cpp:1684-1746 | and so do the members of an object, in any layout, with comments and a last comma |
| Completeness.ReadElementsTree | jsoncpp.cpp:1748-1788 | and the elements of an array, with a comma before the bracket or a null dropped there |
| Verdicts.StatusAcceptable | jsoncpp.cpp:1294-1384 | a tree meets no obstacle exactly when it is within the limits and its extensions are switched on |
| Verdicts.ParseDocument | jsoncpp.cpp:1248-1292 | every text of the grammar with extensions, between comments and whitespace and with anything behind it, parses with exactly its verdict, and if accepted to the value it denotes; with which error if only what follows it or its root is at fault |
| Verdicts.ParseMarked | jsoncpp.cpp:1517-1525 | behind a byte order mark likewise where marks are skipped; otherwise the mark is refused |
| Verdicts.ParseJsonText | jsoncpp.cpp:1248-1292 | completeness: every text of sections 2 to 7 of RFC 8259, with any whitespace, parses without error to the value it denotes, spans included, within the limits on nesting, on names (2^30 bytes), on strings (2147483642 bytes) and on arrays (2^31 elements) |
| Verdicts.ParseVerdict | jsoncpp.cpp:1248-1292 | exactly the JSON texts within the limits parse successfully, and to the value they denote; how the parse of any other ends |
| Extensions.WithoutExtensions | jsoncpp.cpp:1248-1384 | a text that is accepted with extensions other than loose numbers reads as the JSON text without comments, last commas, single quotes and dropped nulls |
| Extensions.OneComma | jsoncpp.cpp:1755-1763 | `[1,]` is an array of one under allowTrailingCommas, of two where nulls may be dropped, and an error otherwise |
| Soundness.ParseSound | jsoncpp.cpp:1248-1292 | for every byte string and setting: what is accepted is a value form between gaps, a container under strictRoot, with nothing but whitespace and comments behind it under failIfExtra |
| Soundness.ValueSound | jsoncpp.cpp:1294-1384 | what is read as a value is a literal, a number that decodes, an array or an object, none nested too deeply; nothing only where nulls may be dropped |
| Soundness.ElementsSound | jsoncpp.cpp:1748-1788 | elements are separated by single commas and closed by a bracket, with a last comma only where it is allowed |
| Soundness.MembersSound | jsoncpp.cpp:1684-1746 | members are names, colons and values, separated by commas (or, behind a comment, any token) and closed by a brace |
| Soundness.DecodedBody | jsoncpp.cpp:1918-1969 | what decodeString decodes is made of plain bytes and of the escapes of the grammar |
| Verdicts.LongString | jsoncpp.cpp:2556-2580 | for a string literal of any length: the reader keeps its length modulo 2^32 of it, or throws if that is above 2147483642 |
| Locality.ReadTokenLocal | jsoncpp.cpp:1396-1505 | a token depends on no byte after its end, other than to see that it ends there |
| LocalReading.ValueLocal | jsoncpp.cpp:1294-1384 | a value read successfully depends only on the bytes it takes up: a window around them gives the same value with shifted spans |
| Spans.NodeSpelled | jsoncpp.cpp:1248-1384 | after a successful parse, parsing only the bytes of any node's span gives that node |
| Spans.SiblingsApart | jsoncpp.cpp:1310-1376 | the spans of a node's children lie inside its brackets and do not overlap |
| Spans.ParseTraced | jsoncpp.cpp:1248-1384 | both at once, for all nodes of the tree |
| Canonical.MemberNames | jsoncpp.cpp:3659-3673 | getMemberNames lists the members in map order |
| Canonical.LayoutIndependence | jsoncpp.cpp:4513-4659 | removing the whitespace outside strings from any layout of a value gives the text with none |
| FastWriting.FastWriter.Write | jsoncpp.cpp:4447-4453 | the exact text of the value's tree and a line feed; an array whose size() wraps to 0 is written as `[]` |
| FastWriting.FastWriter.WriteValue | jsoncpp.cpp:4455-4506 | appends the text of the value, with missing array slots as null and sizes in 32 bits |
| FastWriting.Samples | jsoncpp.cpp:4455-4506 | the colon with and without a blank, and a null that is written or not |
| Layouts.LaidBare | jsoncpp.cpp:4524-4625 | the layout of a value adds nothing but whitespace to its tree |
| Layouts.LineLength | jsoncpp.cpp:4637-4648 | the length that isMultilineArray adds up is that of the array's text on one line |
| Layouts.OneLinerMeans | jsoncpp.cpp:4627-4652 | where nothing wraps, an array goes on one line exactly with at most 24 elements, none with something in it, and at most 73 bytes of text |
| Tidiness.TidyIndented | jsoncpp.cpp:4661-4681 | in a tidy text, the whitespace at the start of each line outside strings is one unit for each open bracket, one less before a closing one |
| Tidiness.TidyOnLines | jsoncpp.cpp:4584-4625 | in a tidy text, a container whose bracket ends a line has a line end behind each comma and its closing bracket first on its line; objects that are not empty always do |
| Tidiness.LaidTidy | jsoncpp.cpp:4524-4625 | a laid out value is tidy wherever a value may begin at its depth |
| Tidiness.LaidIsTidy | jsoncpp.cpp:4513-4522 | the styled writers' texts are indented so and broken into lines so |
| StyledWriting.StyledWriter.Write | jsoncpp.cpp:4513-4522 | exactly the layout of the value with its names cut at a NUL, three spaces a level, and a line feed; every line of it indented by its open brackets, every member and element of a container on several lines on lines of its own |
| StyledWriting.StyledWriter.WriteArrayValue | jsoncpp.cpp:4584-4625 | appends the array laid out at its depth: `[]` where size() is or wraps to 0, one line where it is short, and several lines otherwise |
| StyledWriting.StyledWriter.IsMultilineArray | jsoncpp.cpp:4627-4652 | no exactly when three times the size is below the margin, no element has something in it and the line is shorter than the margin, in 32 bits; then the cache holds the text of every element |
| StyledWriting.Samples | jsoncpp.cpp:4537-4582 | the texts of an object with one member and of an array of two integers, spelled out |
| StyledWriting.CutNames | jsoncpp.cpp:4563-4580 | for names in UTF-8, writing them through c_str() shows exactly when some name that is written holds a NUL |
| StyledWriting.CutUnseen | jsoncpp.cpp:4563-4580 | for other names the cut can go unseen |
| BuiltStyledWriting.BuiltStyledStreamWriter.Write | jsoncpp.cpp:5000-5013 | exactly the layout of the value for any whitespace as indentation, around colons and at the end, with or without kept comments; with an indentation, lines as for StyledWriter |
| BuiltStyledWriting.BuiltStyledStreamWriter.WriteArrayValue | jsoncpp.cpp:5078-5126 | appends the array laid out at its depth, behind a line break if it takes several lines and has none yet |
| BuiltStyledWriting.BuiltStyledStreamWriter.IsMultilineArray | jsoncpp.cpp:5128-5153 | as for StyledWriter; the cache stays empty when comments are kept |
| BuiltStyledWriting.Samples | jsoncpp.cpp:5015-5126 | the texts of an object in an object and of an array of two integers, with and without kept comments, spelled out |
| RoundTrip.BareDenotes | jsoncpp.cpp:1507-1515 | whitespace between tokens changes neither validity nor nesting nor value |
| RoundTrip.DocumentRoundTrip | jsoncpp.cpp:4447-4506 | the text of a value in any layout parses without error; the value read equals the one written, missing slots being null and small unsigned integers signed, exactly when no array size wraps; otherwise it equals that value cut off where sizes wrap |
| RoundTrip.WrapShows | jsoncpp.cpp:3285-3306 | a value cut off where its array sizes wrap is the value exactly when none of them wraps, at any nesting |
| RoundTrip.LostArray | jsoncpp.cpp:4483-4492 | an array with an element that is written as `[]` and lost |
| Truncation.CutLost | jsoncpp.cpp:4563-4580 | a value with a NUL in a name that is written comes back from no layout of its text, under no settings of the reader |
| Dropping.FilledCanon | jsoncpp.cpp:4457-4460 | the tree written without nulls, with its nulls written, is the tree of the value, but for arrays of a single null |
| Dropping.EmptiedShows | jsoncpp.cpp:1755-1763 | emptying those arrays changes the value exactly when one of them is written |
| Dropping.DroppedRoundTrip | jsoncpp.cpp:1358-1371 | a value written without its nulls, in any layout, is read back with them where dropped nulls are allowed, exactly when no array of a single null is written |
| Documents.ThroughFastWriter | jsoncpp.cpp:4447-4453 | FastWriter then OurReader gives the value back exactly when no array size wraps; with nulls dropped, as above |
| Documents.ThroughStyledWriter | jsoncpp.cpp:4513-4522 | StyledWriter then OurReader gives the value back, as above, exactly when no name that is written holds a NUL |
| Documents.ThroughBuiltStyledWriter | jsoncpp.cpp:5000-5013 | BuiltStyledStreamWriter then OurReader, nulls dropped or not |
| AccessPaths.SetGet | jsoncpp.cpp:2050 | writing through a pointer into a tree is read back through it |
| SparseArrays.PutList | jsoncpp.cpp:3351-3365 | assigning a slot assigns the list at that index, after padding it with nulls |
| SparseArrays.PutDense | jsoncpp.cpp:3351-3365 | a dense array stays dense |
| SparseArrays.EraseLast | jsoncpp.cpp:3640-3644 | erasing the last slot shortens the list by one exactly when the slot before it is there |
| SparseArrays.Prefix | jsoncpp.cpp:3343-3348 | what is left when all slots from an index on are erased, and when its size is that index |
| SparseArrays.SparseSizes | jsoncpp.cpp:3343-3348 | an array on which shrinking by one fails |
| SparseArrays.ArrayCell.Size | jsoncpp.cpp:3285-3306 | one more than the highest index, in 32 bits |
| SparseArrays.ArrayCell.Access | jsoncpp.cpp:3351-3365 | operator[] pads the list with nulls to the index and touches no other slot |
| SparseArrays.ArrayCell.Append | jsoncpp.cpp:3554-3561 | append adds one element at the end; what it does at 2^32 elements |
| SparseArrays.ArrayCell.Insert | jsoncpp.cpp:3567-3579 | the chain of swaps inserts into the list, and fails exactly beyond its end |
| SparseArrays.ArrayCell.RemoveIndex | jsoncpp.cpp:3624-3646 | fails exactly for a missing slot; returns the element; removes it from the list exactly when it is not the last of a sparse tail |
| SparseArrays.ArrayCell.Resize | jsoncpp.cpp:3332-3349 | pads or cuts the list; its assertion fails exactly when the new last slot is missing |
| JsonPaths.ResolveMade | jsoncpp.cpp:3999-4058 | a value written through make is what resolve returns, or nothing, exactly when some array size wraps on the way |
| JsonPaths.MakeFrame | jsoncpp.cpp:4042-4058 | make changes what resolve gives for no path but those to the nodes on its way, exactly when it hides no element in an array whose size wraps |
| JsonPaths.MadeNothing | jsoncpp.cpp:4042-4058 | make changes nothing when it ends at a node that is no null |
| JsonPaths.OpenMeans | jsoncpp.cpp:4042-4058 | make can follow a path exactly when every node that is there on the way is null or of the kind its key asks for |
| JsonPaths.AnswerMeans | jsoncpp.cpp:4024-4040 | resolving a path finds nothing where a key on the way is barred, the node at the path where it is there, and null for a slot that is missing below size() |
| JsonPaths.Document.Subscript | jsoncpp.cpp:3351-3365 | operator[] with either kind of key: null becomes a container, an absent child null, another kind throws |
| JsonPaths.Document.Make | jsoncpp.cpp:4042-4058 | the loop of make; it succeeds exactly when every node that is there on the way is null or of the kind its key asks for, and has otherwise thrown and made nothing |
| JsonPaths.Document.Resolve | jsoncpp.cpp:4024-4040 | the default exactly where a key on the way is barred: a missing member, an index from size() on, or a node of another kind; otherwise the node at the path, null for a missing slot |
| JsonPaths.Document.WriteThenRead | jsoncpp.cpp:3999-4058 | make, write, resolve: the value written, unless a size wraps; and every other path as before, unless make hides an element |
| UpDown.ClassifyForms | LabyrinthBot.cpp:656-688 | a message is a guess exactly when it is digits, or digits on both sides of one slash or point |
| UpDown.ClassifyLoop | LabyrinthBot.cpp:656-688 | the one-pass classification computes this |
| UpDown.OffPeriod | LabyrinthBot.cpp:724-735 | the first digit that differs from the period 428571 decides against 3/7, whatever follows |
| UpDown.ComparePeriod | LabyrinthBot.cpp:724-739 | the digit loop tells every decimal part from 3/7, of any length |
| UpDown.Judge91 | LabyrinthBot.cpp:655-753 | UP, DOWN or correct exactly as the guess compares with 31/7; undefined exactly for an empty guess and for overflowing ratios |
| RootTwo.Irrational | LabyrinthBot.cpp:807-828 | no ratio equals the square root of 2, so the loop always decides |
| RootTwo.FirstDecimalsCut | LabyrinthBot.cpp:756 | the first 20 decimals in the source are those of the square root of 2, cut off |
| RootTwo.RootCut | LabyrinthBot.cpp:756 | every prefix of cut-off decimals is the root cut off |
| RootTwo.Undecided | LabyrinthBot.cpp:807-828 | a ratio that agrees with the root to i decimals has 10^i at most 3 times the square of its denominator |
| RootTwo.Round | LabyrinthBot.cpp:808-826 | one round of the long division: its verdict is right, or its remainder exact |
| RootTwo.LongDivision | LabyrinthBot.cpp:807-828 | UP and DOWN are right for all ints; undefined behaviour exactly for a zero denominator and where a remainder times 10 overflows; it decides within 21 of its 1000 rounds |
| RootTwo.AgreesBefore | LabyrinthBot.cpp:807-828 | a ratio that has the decimals of the root up to one place has them up to every place before, so that no later round can overflow once a digit differs |
| RootTwo.SmallDenominator | LabyrinthBot.cpp:807-828 | denominators from 1 to 214748365 never overflow |
| RootTwo.Overflowing | LabyrinthBot.cpp:826 | a ratio that overflows in the first round |
| RootTwo.Saturated | LabyrinthBot.cpp:792-797 | reading numbers as the largest int leaves a ratio on its side of the root, but for two numbers too large with a denominator above 1518500249, which end up below |
| RootTwo.SaturatedWrongly | LabyrinthBot.cpp:792-797 | such a ratio, far above the root, that is told to go up |
| RootTwo.FirstDifference | LabyrinthBot.cpp:837-845 | the first decimal that differs from the root's decides |
| RootTwo.CompareRoot | LabyrinthBot.cpp:836-850 | the digit loop is exact except for decimals that exhaust the known ones, which it calls too large |
| RootTwo.Exhausted | LabyrinthBot.cpp:836-850 | a decimal below the root that is called too large |
| RootTwo.Judge14 | LabyrinthBot.cpp:755-870 | for every guess: undefined behaviour exactly for no guess and for ratios that divide by zero or overflow; otherwise UP or DOWN as the guess compares with the square root of 2, exactly but for saturated ratios, told UP, and decimals that exhaust the known ones, told DOWN |
| VersionOrder.Strverscmp | dirent.h:899-956 | however two strings are split into a common start and rests, the result is negative exactly when the first comes first: digit runs without leading zeros by their value, runs with leading zeros as fractions, anything else by the first byte that differs; zero exactly for equal strings, no index passes a terminator |
| VersionOrder.SplitExists | dirent.h:899-956 | any two different strings can be split so |
| VersionOrder.SplitDecides | dirent.h:899-956 | and the order is what any such split says |
| VersionOrder.Trichotomy | dirent.h:899-956 | the order is asymmetric and total |
| VersionOrder.Monotone | dirent.h:912-955 | a later difference never reverses what an earlier position would decide |
| VersionOrder.Transitive | dirent.h:899-956 | the order is transitive, across digit runs, leading zeros and bytes |
| Replacing.ReplaceRestarting | LabyrinthBot.cpp:58-64 | the restarting loop, wherever it stops, has replaced the leftmost occurrence until none is left |
| Replacing.StopsApart | LabyrinthBot.cpp:58-64 | it stops on every string if the two strings share no character |
| Replacing.StopsShorter | LabyrinthBot.cpp:58-64 | and if the replacement is the shorter one |
| Replacing.NeverStops | LabyrinthBot.cpp:58-64 | if the replacement contains the search string, it stops exactly where there is nothing to replace |
| Replacing.ReplaceOnce | LabyrinthBot.cpp:610-618 | the single pass stops for every non-empty search string and replaces the occurrences from left to right |
| Replacing.ReplacedParts | LabyrinthBot.cpp:610-618 | the string is cut at each leftmost occurrence behind the cut before, and the pass joins those parts with the replacement |
| Replacing.SameReplacement | LabyrinthBot.cpp:58-64 | the two agree, and leave no occurrence, if the replacement is not empty or the search string repeats one character |
| Replacing.DifferentReplacement | LabyrinthBot.cpp:58-64 | in every other case a string on which they differ |
| HexNames.HexAt | LabyrinthBot.cpp:261-274 | the k-th byte stands as two lower-case digits, the high one first |
| HexNames.HexPrint | LabyrinthBot.cpp:261-274 | two hex digits for each byte, cut at 127; it passes the end of its buffer exactly for strings whose length, as an int, is above 499 |
| HexNames.HexDePrint | LabyrinthBot.cpp:276-312 | the bytes of digit pairs up to a NUL, nothing for other strings |
| HexNames.NameRoundTrip | LabyrinthBot.cpp:261-312 | a name comes back exactly when it has at most 63 bytes and no NUL |
| QuestionFiles.TextIs | LabyrinthBot.cpp:358-374 | the text of a question file, marker by marker |
| QuestionFiles.ReturnsDropped | LabyrinthBot.cpp:399-400 | a line that is read loses its carriage returns and nothing else |
| QuestionFiles.FieldTaken | LabyrinthBot.cpp:412-435 | several lines of an answer, channel or role are read one behind the other |
| QuestionFiles.PermissionTaken | LabyrinthBot.cpp:453-461 | of the lines for the permission only the first counts |
| QuestionFiles.PermissionExtended | LabyrinthBot.cpp:453-461 | but those of a second section for it are added |
| QuestionFiles.MarkerTaken | LabyrinthBot.cpp:403-410 | a marker opens its section and changes nothing else, so that half a pair waits for its other half |
| QuestionFiles.NothingTaken | LabyrinthBot.cpp:403-462 | lines before the first marker and behind the permission are passed over |
| QuestionFiles.QuestionRoundTrip | LabyrinthBot.cpp:350-470 | a question with plain single-line fields and a plain hint, and no line above 499 bytes, is read as it was written, with the empty string getline gives at the end |
| QuestionFiles.ReadBackIff | LabyrinthBot.cpp:350-470 | for every question: it comes back exactly when its fields are single lines and no markers, without carriage returns, and so the lines of its hint, of which a first one of several is not the unset mark, and no line is longer than hexprint can print; if only the last fails, reading it is undefined |
| QuestionFiles.LongAnswer | LabyrinthBot.cpp:398-402 | a question with an answer of 500 letters, which can be written but not read |
| QuestionFiles.ReadClean | LabyrinthBot.cpp:378-470 | whatever is in a file, if reading it is defined, no field read from it holds a carriage return, and no field but the hint a line feed |
| QuestionFiles.ReadUnmarked | LabyrinthBot.cpp:378-470 | nor is any line of the hint, or of a pair, a section marker |
| QuestionStore.GetLine | LabyrinthBot.cpp:398-402 | getline: at the end of the text it leaves the line as it was, so that an unterminated last line is seen twice |
| QuestionStore.TakeLine | LabyrinthBot.cpp:403-462 | the body of the reading loop |
| QuestionStore.StartsWith | discord.h:85-96 | yes exactly for longer strings with the prefix, no exactly after a mismatch, and no result at all for a prefix of the prefix |
| QuestionStore.FileNameInjective | LabyrinthBot.cpp:350-357 | different questions have different files |
| QuestionStore.EntriesListed | discord.h:124-146 | what the directory of a store lists for a server |
| QuestionStore.Store.WriteQuestion | LabyrinthBot.cpp:350-376 | the file of the question holds its text, every other file is as before |
| QuestionStore.Store.ReadQuestion | LabyrinthBot.cpp:378-470 | the record read from the file, line by line; undefined exactly where a line, without its carriage returns, passes the end of hexprint's buffer; an unset record if there is no file |
| QuestionStore.Store.QuestionList | discord.h:124-146 | each question of the server exactly once, its name recovered by hexdeprint, and no other; well defined exactly when no entry is a prefix of the id |
| QuestionStore.Store.WriteThenRead | LabyrinthBot.cpp:350-470 | a written question is read back exactly when it can be stored and no line of it is too long, and every other question is as before |
| Deck.CardAt | QasinoHeader.h:278-292 | thirteen cards to a suit, the jokers counting from 1 |
| Deck.NumberToCardInjective | QasinoHeader.h:278-292 | different numbers give different cards |
| Deck.NumOfNumber | QasinoHeader.h:204-211 | card::num undoes numberToCard, but is one too large for jokers |
| Deck.ShuffledPermutes | QasinoHeader.h:294-307 | a shuffle permutes the deck |
| Deck.EveryOrder | QasinoHeader.h:294-307 | every order is the outcome of some random choices |
| Deck.OneOrder | QasinoHeader.h:294-307 | of some choices only, if no card is there twice: no order is favoured |
| Deck.Pile.Shuffle | QasinoHeader.h:294-307 | the erase-and-push loop takes the cards in the order chosen |
| Deck.Pile.Pick | QasinoHeader.h:320-327 | takes the last card, from the restored deck if there was none; the card was not drawn before in its block |
| Deck.ClassicDeck | QasinoHeader.h:309-318 | the 52 or 54 cards, each once, in order unless shuffled |
| Deck.RunConserves | QasinoHeader.h:294-327 | over any run of shuffles and draws, the cards left and those drawn since the last restore are the restored deck |
| Deck.RunNoRepeat | QasinoHeader.h:294-327 | over any run with decks that hold no card twice, no card is drawn twice in a block or is still in the pile |

## Left out

- Floating point: `decodeDouble` and the printing of doubles are uninterpreted functions of their text; finite doubles are kept as exact reals. A double survives the round trip where those functions are inverse on it.
- Comments: collecting, storing and writing them. Values written are without comments, as a value that was never parsed with them.
- The text and location of error messages (`getFormattedErrorMessages`, `extra`), `pushError`, the builder classes' settings, the older `Reader` but for its integer decoding, `StyledStreamWriter`.
- BuiltStyledWriting.BuiltStyledStreamWriter.Write: with `useSpecialFloats` the writer writes `NaN` and `Infinity`, which are no JSON; numbers are JSON numbers or `null` here.
- Objects with 2^32 members or more: their size() wraps too, and the styled writers then measure them as empty. `Counted` excludes them.
- Documents with arrays of 2^31 elements or more: the round trip claims nothing for them; reading them is undefined, as `Verdicts.ParseVerdict` says.
- Memory management of `Value`: duplicated and prefixed strings, unions, the copy policy of `CZString`; copies are values here.
- `Path::makePath`, the text form of paths; paths are lists of arguments here.
- The C++ exceptions for wrong types of arrays are preconditions of the array operations; `JsonPaths` models them as results.
- Verdicts.ParseDocument: the grammar has no trees for what the reader takes beyond its documented extensions (a plus sign, control characters in strings, a stray token for a comma, an unfinished comment at the end, names that are fractions, a double quote between single ones); `Soundness` bounds such texts, but their values are only those of the functions in `ReaderSpec`.
- Soundness.ParseSound: is about forms; that repeated names, long names and long strings are refused is said by `Verdicts` for the texts of the grammar.
- Reader.OurReader.ReadValue: what a parse that fails inside the tree leaves in the root, and which message it records, is only what the functions of `ReaderSpec` say; that it fails, with one error, is proved.
- Tidiness.LaidIsTidy: leaves out layouts with dropped nulls, where a line may be empty; their exact text is that of `Layouts`.
- Replacing.ReplaceRestarting: asks that the loop stops; whether it does is settled for strings without a common character, shorter replacements and replacements that contain the search string, not for the others.
- RootTwo.CompareRoot: takes as given that all the decimals of the string `r2` are those of the root; only the first 20, all that long division can reach, are checked here.
- RootTwo.Judge14: the texts for the root itself, which the bot reads from its resources, are a parameter.
- Deleting questions: `ChangeQuestion` does not delete, and nothing is claimed of it.
- Files that cannot be opened, other files in the question directory, and server ids of other lengths.
- Random numbers are parameters: one choice within its range for each card.
- What `ReadQuestion` prints: only whether printing a line stays inside the buffer is modelled, and the text that `hexprint` makes of an unset buffer is arbitrary.
- Member names of 2^30 bytes or more: `CZString` would cut their lengths. `WellFormed` values and `Narrow` paths have none; the reader throws for them.
- Discord calls, threads, embeds, buttons and permissions; the games whose bodies are not in this repository.
