# A verified model of Parson and of its client dx_jsonSerialize

Parson (`src/parson.c`) is the JSON library behind the device utilities, and
`dx_jsonSerialize` (`src/dx_json_serializer.c`) the one client here that uses it end to end.
This project models both in Dafny, in the form the C code has: the object table, the parser's
cursor, the string decoder, the serializer, the comment stripper and the comparisons are
classes and methods with loops over arrays, each proved against a small functional
specification, and the properties are proved of those specifications.

`dafny verify dfyconfig.toml` checks everything.

## What the modules are

| file | contents |
|---|---|
| `Bits.dfy`, `CText.dfy` | bit operations on naturals; C strings, white space, the cursor's result type |
| `Items.dfy` | an object's members as an ordered list, and runs of operations against a finite map |
| `Probing.dfy`, `ObjectTable.dfy`, `TableRuns.dfy` | linear probing, backward-shift deletion, the hash table class, whole runs on it |
| `Utf8.dfy`, `Strings.dfy`, `Literals.dfy` | UTF-8 and UTF-16, string escapes, what string literals mean |
| `Numbers.dfy`, `NumberForms.dfy`, `Magnitudes.dfy` | the scan of `strtod` and what `%1.17g` prints; which texts are numbers; what number literals denote and how densely they lie |
| `Values.dfy`, `Parser.dfy`, `Layout.dfy`, `Grammar.dfy`, `Printer.dfy` | values, the parser and printer as functions; documents with any literals, gaps and trailing commas; that the parser accepts exactly those; round trips |
| `Printed.dfy`, `Samples.dfy` | slashes, white space and lines in every printed text; examples with every character written out |
| `Parsed.dfy`, `Encoding.dfy` | what holds of every parsed value |
| `Reader.dfy`, `Serializer.dfy` | the parser and the serializer as they run |
| `Comments.dfy` | comment stripping in place, and its transparency |
| `Compare.dfy` | equality and schema validation |
| `DotPaths.dfy` | dotted paths into nested objects |
| `Places.dfy` | equality, validation and dotted paths, path by path |
| `Heap.dfy`, `Forest.dfy`, `Ownership.dfy`, `Memory.dfy`, `HeapPaths.dfy`, `Building.dfy`, `DeepCopy.dfy`, `HeapRuns.dfy` | values in memory with parent pointers: freeing and linking, as steps and as methods, dotted paths, the nodes that parsing and copying make, whole runs |
| `DxSerializer.dfy` | key/value pairs into an object, its text into a buffer |

## Conventions

* A C string is a sequence of characters, one per byte, with a NUL that `At` reads behind the
  last. The theorems hold for all character codes, hence for bytes.
* A number is represented by its literal. `IsNumber` describes what `%1.17g` prints for a
  finite double, and the one assumption about floating point is that `strtod` gives that
  double back. `Meaning` is the real number a literal denotes; only the comparison of numbers
  and the range check use it. `IsNumber` admits every finite literal of the printed form, with
  at most 17 significant digits. These are more than the doubles print, so where a result says
  that some number exists, it speaks of such literals. The only-if half of
  `Compare.EqualityCarriesExactly` does; doubles themselves are further than 0.000001 apart from
  2^33 on already, and `Compare.CarriesExactlyWithin` is the law for any set of numbers.
* The hash is computed modulo 2^64 (`unsigned long`), and the bit masks of the code are bit
  masks here, related to arithmetic by lemmas in `Bits.dfy`.
* A parsed value carries the literals of its text. Printing is modelled for values whose
  numbers are printed literals (`WellFormed`), as the constructors make them.

## What is not as one might expect

Some laws hold only with a side condition; each of these is proved exactly or has a lemma with
the input that breaks it.

* `is_valid_utf8` may look behind the end of its text: `Utf8.ValidFromExact`,
  `Utf8.CutTextIsAccepted`.
* Equality of numbers is within 0.000001, so it is not transitive
  (`Compare.SameIsNotTransitive`). `Compare.EqualityCarriesExactly` says exactly through which
  values it carries over: those without a number of a magnitude below 10^10.
  `Compare.SpacedNumbersCarry` and `Compare.IntegersAreSpaced` say when it does for all values.
* Validation is not transitive: an empty array, as a value, fits any array schema and, as a
  schema, lets any array pass. `Compare.CarriesOverExactly` says exactly when it is.
  `Compare.EmptyArrayClashes` is an example.
* The insertion calls refuse a value that has a parent but not a root above the container:
  `Ownership.InsertExactly` and `HeapPaths.DotSetExactly` show that this is exactly what breaks
  the forest, `Ownership.SelfAppendBreaks` is an example.
* The block pass of the comment stripper reads quotes and opening tokens inside line comments.
  `Comments.LineCommentExactly` says exactly which line comments it gets through unharmed, and
  `Comments.QuotesExactly` that without an opening token inside this is a matter of an even
  number of unescaped quotes; `Comments.QuoteInLineComment` is an example of harm.
* The comment at `src/parson.c:865` speaks of 0x00 to 0x19, but the code refuses all bytes
  below 0x20. `include/parson.h:213-214` allows `json_array_remove` to change the order of the
  values, but the code keeps it. The model follows the code in both.
* `json_parse_string` skips a byte order mark, `json_parse_string_with_comments` does not, and
  refuses text that starts with one: `Comments.MarkRefused`. `Comments.WithoutCommentsAlike`
  says exactly when text without comments parses alike through both, `Comments.MarkedText` is an
  example where it does not.
* A minus sign with no number after it is read as 0 and not consumed:
  `Grammar.ParseExactly` says that apart from this the parser accepts exactly the documents of
  `Layout.dfy`.

## Model

| member | source | states |
|---|---|---|
| `Probing.SomeEmpty` | src/parson.c:433-444 | more cells than items: some cell is empty, so probing ends |
| `Probing.FirstEmpty` | src/parson.c:545-561 | from any start there is a first empty cell, and everything before it is occupied |
| `Probing.PlaceKeepsInv` | src/parson.c:589-594 | a new item in the empty cell where its probe ended keeps every item reachable from its home cell |
| `Probing.MoveLastOpensHole` | src/parson.c:649-657 | swap-with-last in the item store leaves a table that is right but for one hole |
| `Probing.ShiftStep` | src/parson.c:662-672 | one step of the backward shift, moving or not, keeps the shift invariant, with wraparound |
| `Probing.CrossesIsFarther` | src/parson.c:667-668 | the two-case test on positions is exactly "the hole lies between the home cell and the item" |
| `Probing.ShiftRestoresInv` | src/parson.c:659-674 | the whole shift loop, ended by an empty cell or after a full turn, closes the hole: every item is again reachable without crossing an empty cell |
| `Probing.FillHoleKeepsInv` | src/parson.c:669-671 | moving an item into the hole and opening its cell keeps all other probes intact |
| `ObjectTable.MaskIsHome` | src/parson.c:543 | `hash & (capacity - 1)` is the hash modulo a power-of-two capacity |
| `ObjectTable.MaskWraps` | src/parson.c:545 | `(ix + i) & (capacity - 1)` walks the cells cyclically |
| `ObjectTable.GrownIsCapacity` | src/parson.c:508 | the capacity after growing: 16 at first and then the double, so that capacities stay 0 or powers of two |
| `ObjectTable.HashString` | src/parson.c:397-415 | the loop computes djb2 modulo the word size, up to the first NUL |
| `ObjectTable.Djb2IsWeighted` | src/parson.c:397-415 | that is the number with 5381 and the characters as its digits to the base 33, reduced once at the end |
| `ObjectTable.ShiftIsConsistent` | src/parson.c:649-674 | shift after swap-with-last: a consistent table of the list without the removed item |
| `ObjectTable.ShiftLoop` | src/parson.c:659-674 | the in-place loop on `cells` and `cell_ixs` computes that shift |
| `ObjectTable.CannotMissAll` | src/parson.c:545-562 | a probe never goes round the whole table without finding an empty cell |
| `ObjectTable.ObjectTable.constructor` | src/parson.c:433-464 | an empty table of the given capacity, item capacity 70 percent of it |
| `ObjectTable.ObjectTable.GetCellIx` | src/parson.c:533-562 | found exactly if the list has the name, at the cell of its item; otherwise the empty cell where it goes |
| `ObjectTable.ObjectTable.Add` | src/parson.c:564-598 | refuses a name already there, leaving the items alone; otherwise appends |
| `ObjectTable.ObjectTable.GrowAndRehash` | src/parson.c:503-531 | same items in the same order in a larger table with room; every re-insertion succeeds |
| `ObjectTable.ObjectTable.AddAllTo` | src/parson.c:516-525 | re-inserting never grows again, since the new item capacity exceeds the count |
| `ObjectTable.ObjectTable.Remove` | src/parson.c:618-676 | removes the named item, the last one taking its place, or refuses and changes nothing |
| `ObjectTable.ObjectTable.SetValue` | src/parson.c:2063-2104 | replaces in place or appends |
| `ObjectTable.ObjectTable.GetValue` | src/parson.c:600-616 | the value the list has for the name, if any |
| `ObjectTable.ObjectTable.Clear` | src/parson.c:2270-2287 | no items, same capacity |
| `Items.SetLookup` | src/parson.c:2063-2104 | after a set exactly that name has changed |
| `Items.RemoveAtLookup` | src/parson.c:649-657 | after a removal exactly that name is gone, though the order changes |
| `Items.StepRefines` | src/parson.c:564-676 | each operation on the ordered list is the operation on a finite map, with the same answer |
| `Items.CountIsMapSize` | src/parson.c:1453-1455 | the count is the number of entries of the map |
| `Items.RunRefines` | src/parson.c:533-676 | every run answers as the same run on a finite map; names stay distinct and the count is the map size |
| `TableRuns.Run` | src/parson.c:533-676 | any run of set, add, remove, clear and get on the real table gives the items and answers of the list, hence of a finite map |
| `Utf8.VerifyExact` | src/parson.c:328-368 | verify_utf8_sequence accepts exactly the sequences of section 4 of RFC 3629, with their length |
| `Utf8.IsValidUtf8` | src/parson.c:370-380 | the loop computes the left-to-right check |
| `Utf8.ValidFromExact` | src/parson.c:370-380 | is_valid_utf8 holds exactly for valid text or for text cut in a sequence that the bytes behind complete; exact when the byte behind is no continuation byte |
| `Utf8.CutTextIsAccepted` | src/parson.c:370-378 | a concrete cut text that is accepted |
| `Utf8.ValidConcat` | src/parson.c:370-380 | valid text after valid text is valid |
| `Utf8.ValidSplit` | src/parson.c:370-380 | valid text splits into valid parts at an ASCII byte |
| `Utf8.EncodeDecodes` | src/parson.c:795-821 | the bytes written for a scalar value are one well-formed sequence that decodes to it |
| `Utf8.DecodeEncodes` | src/parson.c:795-821 | every well-formed sequence is what the encoder writes for its code point |
| `Utf8.CombineExact` | src/parson.c:812-816 | a surrogate pair maps one-to-one into U+10000 to U+10FFFF (section 2.2 of RFC 2781) |
| `Utf8.CombineReachesAll` | src/parson.c:812-816 | and onto it |
| `Strings.Hex4Is` | src/parson.c:297-311 | the shifts and ors of four hex digits give the number they denote |
| `Strings.ProcessAligned` | src/parson.c:834-889 | process_string ends exactly at the closing quote skip_quotes found, inside unicode and surrogate escapes too, and writes no more bytes than it reads |
| `Strings.GetQuotedQuote` | src/parson.c:891-900 | round trip: a string written by json_serialize_string, with either slash setting and any bytes, is read back whole, and the cursor stops after its closing quote |
| `Literals.LiteralIsRead` | src/parson.c:765-900 | a literal made of any mix of raw bytes, two-character escapes, unicode escapes and surrogate pairs is read as the concatenation of what they denote, code points as their UTF-8 encoding, and the cursor stops behind it |
| `Literals.OnlyPiecesAreRead` | src/parson.c:765-900 | whatever get_quoted_string reads is such a mix, read as what it denotes |
| `Literals.UnicodeIsRead` | src/parson.c:287-313 | the escape of any code point below U+10000 outside the surrogates, its four digits taken from 0 to 9, a to f and A to F in any mix, is read as the UTF-8 sequence of that code point |
| `Literals.PairIsRead` | src/parson.c:805-816 | the same for the two escapes of any code point beyond U+FFFF |
| `Literals.NoDigitFails` | src/parson.c:287-311 | an escape with any other character among its four makes the string fail |
| `Literals.HalfPairFails` | src/parson.c:805-824 | so does a trail surrogate by itself, or a lead one with no trail escape behind it |
| `Literals.UpperCaseIsRead` | src/parson.c:287-296 | an example: E9 in upper case is read as the bytes C3 and A9 |
| `Literals.NoControlInside` | src/parson.c:865-868 | no byte below 0x20 stands in a string that is read |
| `Literals.EscapeExactly` | src/parson.c:1269-1334 | how each byte is written: quotes and backslashes behind a backslash, and slashes when the setting is on; the five named control characters with their letters; the others with four lower-case digits; every other byte as it is |
| `Literals.PlainIsUnchanged` | src/parson.c:1316-1326 | a string without quotes, backslashes and control characters is written as it is, slashes included when the setting is off |
| `Strings.ProcessValid` | src/parson.c:834-889 | from valid UTF-8 only valid UTF-8 comes out, whatever escapes it is written with |
| `Strings.GetQuotedValid` | src/parson.c:765-900 | the same for a quoted string in valid text |
| `Numbers.ScanExactly` | src/parson.c:1077-1090 | strtod takes a printed number exactly to its end if and only if what follows does not carry it on (a digit, a complete exponent, a point, or the tail of a hexadecimal float, as the literal allows); is_decimal accepts it, and it starts like a number |
| `NumberForms.ScanIsLongest` | src/parson.c:1081 | strtod takes inf or nan in any case, a hexadecimal number, or the longest text of the decimal form; nothing exactly if none of these is there |
| `NumberForms.AcceptedExactly` | src/parson.c:382-395 | what strtod takes and is_decimal passes are exactly the texts of the decimal form in which a leading zero is followed by a point or by nothing |
| `NumberForms.NumberExactly` | src/parson.c:1077-1090 | a number is read, and the cursor moved to its end, if and only if the longest such text there has no leading zero and a magnitude below 2^1024 - 2^970, and no hexadecimal number is there |
| `Samples.LeadingZeroRefused` | src/parson.c:382-385 | no number starts with a zero and another digit |
| `Samples.ZeroOne` | src/parson.c:382-385 | an example: 01 and -01 are refused |
| `Numbers.G17Short` | src/parson.c:67-71 | a number printed with the default format fits the scratch buffer |
| `Layout.ParseDoc` | src/parson.c:902-1047 | text of a document, with any string and number literals, white space anywhere between tokens and perhaps a comma after the last element or member, parses to its value and leaves the cursor right behind it, if and only if the nesting bound allows and a bare number is not carried on; otherwise something else is parsed, or nothing |
| `Layout.ParseScalar` | src/parson.c:1049-1099 | the same for scalars, numbers included |
| `Layout.ParseList` | src/parson.c:1000-1047 | the same for arrays |
| `Layout.ParseDict` | src/parson.c:927-998 | the same for objects |
| `Grammar.ValueIsRead` | src/parson.c:902-1047 | whatever the parser reads, a lone minus apart, is the text of such a document, not nested too deeply, and its value |
| `Grammar.ParseExactly` | src/parson.c:902-1047 | the parser returns a value and a cursor if and only if up to there stands a document of that value, within the nesting bound and not carried on by what follows, or a lone minus, read as 0 with the cursor left on it |
| `Grammar.NumberToken` | src/parson.c:1077-1090 | the number literals of the documents are the texts of the decimal form without a leading zero and in range |
| `CText.SpaceIs` | src/parson.c:80 | white space is the six characters of isspace |
| `Samples.WhiteBetween` | src/parson.c:80 | each of them, in any mix, is passed over between two tokens |
| `Parser.NulNameRefused` | src/parson.c:951-961 | a member name with a NUL in it, however it is written, is refused |
| `Layout.ParseValueSkips` | src/parson.c:906 | leading white space makes no difference |
| `Printer.PrintIsText` | src/parson.c:1124-1267 | what the serializer appends is the text of a document of the value, with its own literals and its own white space in the gaps |
| `Printer.SeparateByChars` | src/parson.c:1081 | strtod stops at the end of a printed number exactly if the rest does not carry it on, which its first characters decide |
| `Printer.PrintParses` | src/parson.c:902-1267 | value round trip at any indent level, compact or pretty, with anything behind: value and key order come back and exactly the rest is left, if and only if the depth is at most 2048 and the rest does not carry a number on |
| `Printer.RoundTrip` | src/parson.c:902-1267 | a value comes back from its text exactly when it is at most 2048 deep |
| `Printer.MarkIsSkipped` | src/parson.c:1362-1370 | so it does behind the bytes EF, BB and BF |
| `Printer.PrintsAgree` | src/parson.c:1362-1370 | json_parse_string reads compact and pretty text of a value alike whatever comes behind, and as the value exactly under the same condition |
| `Printer.PrintIsCString` | src/parson.c:1269-1334 | the text has no NUL, whatever bytes the strings hold |
| `Printed.PrintEscapesSlashes` | src/parson.c:1316-1322 | with the setting on, every slash in the text of any value stands behind a backslash, so it never has a closing tag in it |
| `Printed.PrettyIsCompact` | src/parson.c:1124-1267 | without the white space outside strings the pretty text is the compact text, which has none |
| `Printed.PrettyIsTidy` | src/parson.c:1116-1122 | in the pretty text every line is indented by exactly four spaces for each container it is in |
| `Samples.CompactText` | src/parson.c:1124-1334 | an example: the compact text of an object with every kind of value |
| `Samples.PrettyText` | src/parson.c:1124-1334 | the same, pretty, line by line |
| `Samples.SampleParses` | src/parson.c:902-1047 | and both parse to that object |
| `Parsed.ParseFits` | src/parson.c:902-1047 | whatever the text, a parsed value is at most 2048 deep and its objects have distinct names without NULs |
| `Parsed.ParsedPrints` | src/parson.c:902-1267 | a parsed value whose numbers are printed literals is well formed, and its text, compact or pretty, parses back to it |
| `Encoding.ParseKeepsUtf8` | src/parson.c:785-1062 | valid UTF-8 text gives only valid UTF-8 strings and names |
| `Reader.Reader.SkipWhitespace` | src/parson.c:80 | the cursor stops at the first byte that is not white space |
| `Reader.Reader.SkipQuotedString` | src/parson.c:765-783 | skip_quotes moves the cursor as its specification says |
| `Reader.Reader.ParseUtf16` | src/parson.c:785-829 | writes exactly the bytes of the escaped code point |
| `Reader.Reader.ProcessEscape` | src/parson.c:845-863 | one escape moves both pointers as the specification does, within bounds |
| `Reader.Reader.ProcessString` | src/parson.c:834-889 | fills a buffer of input length plus one within bounds, and returns the processed bytes and a NUL |
| `Reader.Reader.GetQuotedString` | src/parson.c:891-900 | the cursor method agrees with its specification |
| `Reader.Reader.ParseValue` | src/parson.c:902-925 | the cursor method agrees with its specification |
| `Reader.Reader.ParseArray` | src/parson.c:1000-1017 | the same for arrays |
| `Reader.Reader.ParseElements` | src/parson.c:1018-1046 | the element loop, trailing comma included |
| `Reader.Reader.ParseObject` | src/parson.c:927-947 | the same for objects |
| `Reader.Reader.ParseMembers` | src/parson.c:948-997 | the member loop fills a hash table; its items in order are the members, and a name that occurs twice fails |
| `Reader.Reader.ParseNumberValue` | src/parson.c:1077-1090 | strtod, range check and is_decimal; a lone minus sign gives 0 and consumes nothing |
| `Reader.ParseText` | src/parson.c:1362-1370 | the run of the cursor methods is the specified parser |
| `Serializer.WriteString` | src/parson.c:1107-1115 | the string and one NUL, nothing else |
| `Serializer.SerializeString` | src/parson.c:1269-1334 | the returned length and the bytes written are those of the quoted string, which `Literals.EscapeExactly` describes byte by byte |
| `Serializer.SerializeValue` | src/parson.c:1124-1267 | with and without a buffer the same length, that of the text; with one exactly the text and a NUL, no byte before or behind touched |
| `Serializer.SerializeArray` | src/parson.c:1136-1167 | the array case |
| `Serializer.SerializeObject` | src/parson.c:1168-1214 | the object case |
| `Serializer.SerializationSize` | src/parson.c:1778-1782 | the text length plus one |
| `Serializer.SerializeToBuffer` | src/parson.c:1784-1795 | succeeds exactly when text and NUL fit; writes them and nothing else, or nothing at all |
| `Serializer.SerializeToString` | src/parson.c:1819-1836 | a fresh buffer holding exactly the text and a NUL |
| `Comments.RemoveComments` | src/parson.c:236-269 | the in-place scanner does to the buffer what the specification does to the string |
| `Comments.StripComment` | src/parson.c:252-265 | the comment at the cursor is blanked to its end; one without an end loses only its opening token |
| `Comments.OnlySpacesWritten` | src/parson.c:253-264 | on any text, each byte is kept or becomes a space |
| `Comments.LiteralMaps` | src/parson.c:245-252 | no byte of a string literal changes, whatever raw bytes and escapes it is made of, and scanner and parser agree on where it ends |
| `Comments.StripGap` | src/parson.c:236-269 | a gap of white space and comments is cleared to spaces, whatever follows; line comments count when the block pass does them no harm |
| `Comments.DocMaps` | src/parson.c:236-269 | one pass over the text of a document changes the gaps and no token |
| `Comments.CommentsAreTransparent` | src/parson.c:1372-1385 | with comments anywhere between tokens, trailing commas and any literals json_parse_string_with_comments returns the value, if and only if the nesting bound allows and what follows, stripped, does not carry a number on; line comments may hold anything the block pass survives |
| `Comments.LineCommentsAlone` | src/parson.c:1372-1385 | the same for line comments with any text, open quotes included, when no block comment opens anywhere |
| `Comments.LineCommentExactly` | src/parson.c:236-269 | a line comment is removed whatever follows if and only if no block comment opens at its second slash and the block pass comes out of it outside strings and comments |
| `Comments.QuotesExactly` | src/parson.c:246-251 | for a line comment without an opening token of a block comment: if and only if its unescaped quotes are even in number |
| `Comments.QuotesDecide` | src/parson.c:246-251 | the same count decides for a stretch of white space and several line comments |
| `Comments.SurvivorIsGap` | src/parson.c:245-268 | a line comment that survives the block pass is a gap in the sense of the theorem |
| `Comments.StripThrough` | src/parson.c:245-268 | the scanner goes on after any text from where it stands at its end, unless a token starts across the end |
| `Comments.CommentedLikePrinted` | src/parson.c:1372-1385 | the result is that of parsing the serializer's own text, compact or pretty |
| `Comments.QuoteInLineComment` | src/parson.c:250-252 | an example: a line comment with one quote, and a block comment that then stays in |
| `Comments.MarkRefused` | src/parson.c:1372-1385 | text that starts with a byte order mark is refused |
| `Comments.WithoutCommentsAlike` | src/parson.c:1362-1385 | text with no opening token in it parses alike through both entry points, if and only if it does not start with a byte order mark or does not parse at all |
| `Comments.MarkedText` | src/parson.c:1365-1368 | an example: the bytes EF, BB and BF and a digit |
| `Comments.ParseWithComments` | src/parson.c:1372-1385 | copy, two passes and parse compute the specified result |
| `Compare.NamesCounted` | src/parson.c:2380-2391 | pigeonhole: equal counts and one-sided inclusion of distinct names give inclusion both ways |
| `Compare.ValueEquals` | src/parson.c:2349-2412 | the recursive check decides equality by name in both directions |
| `Compare.ObjectsEqual` | src/parson.c:2377-2392 | counts and one side's names suffice |
| `Compare.SameReflexive` | src/parson.c:2349-2412 | every value equals itself |
| `Compare.SameSymmetric` | src/parson.c:2349-2412 | equality is symmetric |
| `Compare.OrderDoesNotMatter` | src/parson.c:2377-2392 | reordering members at any depth does not change what a value equals |
| `Compare.SameExactly` | src/parson.c:2349-2412 | two values are equal if and only if one is the other with members reordered, at any depth, and each number replaced by one less than 0.000001 away |
| `Compare.SameIsReordered` | src/parson.c:2349-2412 | without numbers, if and only if one is the other with members reordered |
| `Places.SameByPlaces` | src/parson.c:2349-2412 | two values are equal if and only if every path leads to values in both or in neither, of the same kind, with the same strings and bools, and numbers less than 0.000001 apart |
| `Compare.SameIsNotTransitive` | src/parson.c:2404 | an example: -2^-20, 0 and 2^-20, neighbours equal, ends not |
| `Compare.ApartExactly` | src/parson.c:2404 | a number is equal to two printed literals that differ, if and only if its magnitude is below 10^10 |
| `Compare.EqualityCarriesExactly` | src/parson.c:2349-2412 | equality through b carries over to all values, with printed literals as numbers, if and only if every number anywhere in b has a magnitude of 10^10 or more |
| `Compare.CarriesExactlyWithin` | src/parson.c:2349-2412 | for values whose numbers are drawn from any given set: if and only if no number anywhere in b is equal to two numbers of the set that differ |
| `Compare.NoNumberIsFirm` | src/parson.c:2404 | so it carries over through a value without numbers |
| `Compare.SpacedNumbersCarry` | src/parson.c:2404 | and through any value when different numbers are at least 0.000001 apart |
| `Compare.IntegersAreSpaced` | src/parson.c:2404 | as integers are |
| `Compare.Validate` | src/parson.c:2289-2347 | the recursive check decides validity, which `Places.ValidByPlaces` describes path by path |
| `Compare.ValidateMembers` | src/parson.c:2321-2341 | the early rejection by pair count never changes the verdict |
| `Places.ValidByPlaces` | src/parson.c:2289-2347 | a value is valid if and only if at every path at which the schema asks for something (an array asks its first element of every element) there is a value of the kind asked, of any kind where null is asked |
| `Places.AcceptedKind` | src/parson.c:2301-2303 | in particular an accepted value is of the kind of its schema, unless the schema is null |
| `Compare.WideningKeepsValid` | include/parson.h:124-134 | adding members to objects, at any depth, keeps a value valid |
| `Compare.CarriesOverExactly` | src/parson.c:2305-2341 | every value the library can hold that b accepts is accepted by a, for a that accepts b, if and only if no empty array of b meets an array of a that asks for something |
| `Compare.EmptyArrayClashes` | src/parson.c:2305-2320 | an example: [1], [] and [null] |
| `Compare.ValidationTransitive` | src/parson.c:2289-2347 | validation is transitive through a value without empty arrays |
| `DotPaths.SetSucceedsIff` | src/parson.c:2151-2200 | dotset succeeds if and only if no proper prefix of the path leads to a non-object |
| `DotPaths.SetThenGet` | src/parson.c:2151-2200 | after a set, where every path leads: to v, into v, to an object on the way, or where it did |
| `DotPaths.SetLaws` | src/parson.c:1420-1427 | the path set leads to v; paths that are not prefixes of each other with it are unaffected |
| `Places.DotGetFollows` | src/parson.c:1420-1427 | dotget leads to what following the names between the dots, one by one, leads to |
| `DotPaths.RemoveSucceedsIff` | src/parson.c:678-691 | dotremove succeeds if and only if dotget finds something |
| `DotPaths.RemoveThenGet` | src/parson.c:678-691 | after a removal, where every path leads |
| `DotPaths.RemoveLaws` | src/parson.c:678-691 | the path removed leads nowhere; every path that does not go on from it leads somewhere exactly if it did |
| `DotPaths.DotSetKeepsWellFormed` | src/parson.c:2151-2200 | names stay distinct and NUL-free, at every depth |
| `DotPaths.DotRemoveKeepsWellFormed` | src/parson.c:678-691 | the same for a removal |
| `Heap.Nested` | src/parson.c:122-126 | trees that share a node are one inside the other |
| `Heap.SiblingsApart` | src/parson.c:122-126 | different children of a container share nothing |
| `Forest.ChangeKeepsForest` | src/parson.c:711-722 | freeing some children of a container and linking in a root that does not contain it keeps every live value a tree in one slot |
| `Ownership.FreeExact` | src/parson.c:1578-1593 | json_value_free frees exactly the tree, every node once, and touches no freed node |
| `Ownership.LinkIsChange` | src/parson.c:2077-2084 | freeing and then writing two fields is that change |
| `Ownership.PerformKeepsForest` | src/parson.c:1902-2001 | set, append, replace, remove and clear keep the forest, touch nothing freed, and change nothing when they refuse |
| `Ownership.PerformMeans` | src/parson.c:1902-2104 | their effect on values is the one on ordered lists and sequences, and nodes outside the container's tree and the inserted root are unchanged |
| `Ownership.ArrayLaws` | src/parson.c:1902-2001 | element by element, what an append, a replacement and a removal leave in an array |
| `Ownership.InsertExactly` | src/parson.c:711-722 | an accepted insertion keeps the forest if and only if the value inserted is not a root above the container |
| `Ownership.SelfAppendBreaks` | src/parson.c:1996-2001 | an example: an array appended to itself |
| `Memory.Memory.FreeValue` | src/parson.c:1578-1593 | the recursion that frees children and then the node does exactly the freeing step |
| `Memory.Memory.SetValue` | src/parson.c:2063-2104 | the writes of a set do exactly the set step |
| `Memory.Memory.RemoveValue` | src/parson.c:618-657 | the same for a removal |
| `Memory.Memory.AppendValue` | src/parson.c:1996-2001 | the same for an append |
| `Memory.Memory.ReplaceValue` | src/parson.c:1914-1922 | the same for a replacement |
| `Memory.Memory.RemoveElement` | src/parson.c:1902-1912 | the same for a removal from an array, order kept |
| `Memory.Memory.Clear` | src/parson.c:1984-1994 | the same for clearing |
| `Memory.Memory.DotRemove` | src/parson.c:678-691 | the recursion down the path does exactly the dotremove step |
| `HeapPaths.DotSetRefines` | src/parson.c:2151-2200 | dotset in memory is dotset on values: same verdict, same result, forest kept, nothing else touched; on failure memory is as before, objects made on the way included |
| `HeapPaths.DotSetExactly` | src/parson.c:2151-2200 | a dotset that the path accepts keeps the forest if and only if the value is not a root above the object |
| `HeapPaths.DotSetRefusesParent` | src/parson.c:2071 | a value that has a parent is refused and nothing changes |
| `HeapPaths.DotRemoveRefines` | src/parson.c:678-691 | dotremove in memory is dotremove on values |
| `Building.BuildExact` | src/parson.c:927-1047 | building a value node by node, a container first and each child added to it, gives the value under a new root in new nodes, apart from all others, and a forest |
| `DeepCopy.CopyExact` | src/parson.c:1688-1776 | a deep copy has the same value, in new nodes under a new root, and the original is untouched |
| `DeepCopy.CopyIsBuild` | src/parson.c:1688-1776 | it makes exactly the nodes that building the value makes |
| `DeepCopy.CopyIsEqual` | src/parson.c:1688-1776 | a copy is equal to its source, both ways, and both are serialized to the same text |
| `HeapRuns.FreeKeepsForest` | src/parson.c:1578-1593 | freeing a root frees exactly its tree and leaves a forest |
| `HeapRuns.ParsedIsTree` | src/parson.c:902-1047 | whatever text parses, its value is a tree under a new root, with parent pointers, and nothing that was there is touched |
| `HeapRuns.StepKeepsForest` | src/parson.c:902-2200 | every call keeps the forest, parsing included |
| `HeapRuns.RunKeepsForest` | src/parson.c:902-2200 | every run, from any forest, in which no root is inserted beneath itself and only roots are freed, ends in a forest without touching a freed value |
| `HeapRuns.RunFromNothing` | src/parson.c:902-2200 | in particular every such run that starts with no values |
| `HeapRuns.OneSlotEach` | src/parson.c:122-126 | in a forest a value has at most one slot, and a null parent exactly when it has none |
| `DxSerializer.IntLiteralMeans` | src/parson.c:1652-1665 | the decimal text of an int is a number the serializer prints, and it denotes the int |
| `DxSerializer.LastWins` | src/dx_json_serializer.c:24-50 | the last acceptable value for a key wins |
| `DxSerializer.ObjectHolds` | src/dx_json_serializer.c:24-50 | for each key the object holds the last argument that is taken, by its type: true for a bool that is not 0 and false for 0, a string as it is, a number that denotes the int, the double as it is |
| `DxSerializer.ObjectLacks` | src/dx_json_serializer.c:24-50 | and nothing for a key with only null strings, strings that are not valid UTF-8, NaNs and infinities |
| `DxSerializer.BoolText` | src/dx_json_serializer.c:47-49 | an example: the text of a single bool |
| `DxSerializer.FirstKeepsItsPlace` | src/dx_json_serializer.c:24-50 | the object has exactly the keys with an acceptable value, in the order in which each first had one |
| `DxSerializer.FoldWellFormed` | src/dx_json_serializer.c:24-50 | the object is well formed and flat |
| `DxSerializer.Construct` | src/parson.c:1632-1676 | a bool is true unless 0; a string is itself if it is valid UTF-8; null strings, NaN and infinities make no value |
| `DxSerializer.BuildObject` | src/dx_json_serializer.c:24-50 | the loop over the arguments builds that object in a hash table, passing over null keys |
| `DxSerializer.SafeStringCopy` | include/dx_utilities.h:12 | the string, cut if it is too long, then NULs up to the length; nothing behind |
| `DxSerializer.JsonSerialize` | src/dx_json_serializer.c:12-67 | for any pairs, null keys and refused values included: true exactly if the text is shorter than the buffer; then the buffer holds it, padded with NULs, and parsing the buffer gives the object; otherwise the buffer is unchanged |

## Left out

- Memory: allocation is assumed to succeed, so the paths that clean up after a failed allocation, the allocator hooks and the freeing of names and buffers are not modelled; the ownership of values is.
- Integer widths: string lengths and counts are unbounded; the code's `int` totals assume a text shorter than 2^31 and its `unsigned int` counters a cell capacity below 2^32.
- Floating point: the digits `%1.17g` prints and the rounding of `strtod` are covered by the one assumption above, comparison of numbers is on the reals, and a literal just below the range limit is classified by its exact value.
- Number formats: `json_set_float_serialization_format` and `json_set_number_serialization_function`; the default format is used. Locales other than C are left out too.
- Printing of parsed numbers in their canonical form: a parsed number keeps its literal, so round trips that print it again are stated for printed literals.
- Objects and arrays in memory: in `Heap.dfy` memory is a map of nodes, and an object's members are a list in the node, not a hash table of pointers (the table is proved to behave as that list in `ObjectTable.dfy`); the capacity of arrays is left out.
- HeapPaths.DotSetRefines: dotset, and deep copying likewise, are steps on that map and not methods, because they allocate: the address is an arbitrary choice among those not live.
- DotPaths.SetThenGet: the laws of dotted paths are about values; that the calls have this effect in place is proved in `HeapPaths.dfy` on the map of nodes.
- Reader.ParseText: the cursor methods return a parsed value as a value; the nodes with parent pointers it consists of are those of `Building.dfy`, as steps on the map, and the nodes that a failing parse makes and frees again are left out.
- DxSerializer.JsonSerialize: a type code outside the enumeration, whose argument the code does not consume, is left out; `long` and `float` arguments enter as doubles.
- `read_file` and the file wrappers, the typed getters, and the typed variants of set, append, replace and dotset: thin wrappers that would add only easy members.
- The rest of the repository (MQTT, timers, GPIO, I2C, networking, OpenAI, logging): glue over other libraries and devices.
