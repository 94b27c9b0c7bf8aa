# Verified models for GeoNS

GeoNS is a decentralised name server for measurement nodes. A node keeps its settings in a JSON file, talks to other
nodes in JSON messages, remembers them in a small table, and serves HTTP routes. This project models the parts where
those features meet hard algorithms, and proves what they keep:

* **The JSON engine** (`src/libs/parson/parson.c`). Objects are an open-addressing hash table with linear probing, a
  7/10 load limit, doubling rehash, swap-with-last item storage and backward-shift deletion (`Table.dfy`). On top of
  it are the string scanner and decoder (`Strings.dfy`, `Text.dfy`), numbers (`Doubles.dfy` has the doubles and
  rounding to the nearest one, `Numbers.dfy` reading by `strtod`, `Decimals.dfy` printing with `%1.17g`), the
  recursive-descent parser (`Parser.dfy`, `ParserLoops.dfy`), the two-pass serializer (`Serializer.dfy`,
  `SerializerLoops.dfy`), comment stripping (`Comments.dfy`), validation, equality and deep copy (`Trees.dfy`, with
  the tolerance of equality in `Tolerance.dfy`), and dotted paths, on values (`DotPath.dfy`) and on objects that hold
  each other by reference (`ObjectTree.dfy`). `Grammar.dfy` has the JSON that is read, as a relation between texts and
  values, and proves that the parser decides it; `Layout.dfy` describes serialized text byte by byte. `RoundTrip.dfy`
  proves that parsing undoes serializing, and `Locality.dfy` that a cut serialization is not parsed at all.
* **The discovery protocol** (`src/libs/geonsp/geonsp.c`, `src/libs/db/table.c`, `src/libs/server/server.c`).
  `GeoNsp.dfy` has the node table and the messages as JSON text, `Exchange.dfy` one exchange as the two sides execute
  it, `Boot.dfy` the loops of the boot, and `Network.dfy` the whole network as a transition system whose invariants
  hold over every run: nodes boot, connect, announce, fetch, store, serve and stop in any order, and each database
  call can fail in each of its stages. `NetworkRuns.dfy` has runs, from the start, that reach what the code does not
  rule out.
* **The clients of these cores**. `Config.dfy` has the configuration file (`src/libs/config/config.c`),
  `StringMap.dfy` the linked list map (`src/libs/core/strmap.c`) and `Routes.dfy` the route table
  (`src/libs/http/http.c`).

Where the code works step by step, the model is a method or a class and is proved against a function; the properties are
lemmas about that function. Text is a sequence of bytes, each written as the character with that code, and position
`|s|` of a text reads as its terminating NUL.

## What the proofs show about the code

* The parser finds a value exactly where the grammar of `Grammar.dfy` has it, if it is not nested too deep
  (`Recognition.ParsedIffValue`). The grammar is JSON with a few extras: white space is that of the C locale, a list
  may end with a comma, a string may hold bytes that are no UTF-8, and a number may miss the digits before a dot that
  a minus sign precedes or those behind the dot. It refuses duplicate keys and keys with NUL, control characters in
  strings, unpaired surrogates, superfluous leading zeros and numbers that would be infinite.
* Pretty text is compact text with white space between the tokens: a line for each element with four blanks for each
  open bracket, and a blank behind each colon (`SerializerLayout.PrettyIsFormatted`). Compact text has no white space
  outside of literals. Every string is written as a shortest literal for it, apart from the backslashes that the slash
  setting adds (`SerializerLayout.QuoteIsShortest`), and every number as the nearest decimal of at most seventeen
  digits, without a zero too many (`Decimals.NumberIsPrinted`).
* Every successful parse advances exactly where `strtod` sets `errno` to EINVAL when it converts nothing, which POSIX
  leaves open: the musl of the container image does, glibc does not (`Numeral.STRTOD_SETS_EINVAL`,
  `Parser.AllAdvanceIff`). Otherwise a minus sign without a numeral parses: the empty span counts as decimal, and the
  result is the number 0 with the cursor where it was. Nothing else fails to advance
  (`Parser.ParseAdvancesUnlessBareMinus`, `Parser.BareMinusParses`).
* Seventeen digits are enough: every finite double is printed by `%1.17g` as a decimal that `strtod` rounds back to
  it, so every tree is read back as it was written (`Decimals.NumberRoundTrip`, `RoundTrip.SerializeThenParse`), and
  every text that parses has a printed form that parses alike (`RoundTrip.ParseThenSerialize`).
* The reader of `\u` escapes looks behind the closing quote exactly when the quote stands among the four places of a
  unit, and never behind the terminating NUL. Such an escape is refused, so a string that is accepted was never read
  behind its quote, and what is decoded does not depend on what stands there (`StringLiteral.UnitLooksPastQuote`,
  `StringLiteral.DecodingLooksPastQuote`, `StringLiteral.DecodingStaysInText`, `StringLiteral.DecodingDependsOnSpan`).
* Conformance of `json_validate` is transitive through a value exactly when that value is not loose. A value is loose
  when its fields and first items, read as a schema, lead to an empty array in a place where all values are arrays and
  their items, if any, share a type other than null: a schema can ask for that type, and the empty array does not
  (`Validation.TransitiveIffNotLoose`).
* `json_value_equals` compares numbers with a tolerance, so it is not transitive. Between trees of doubles it passes
  through a tree exactly when every number in that tree is 2^33 in size at least, where neighbouring doubles are
  further apart than the tolerance (`Equality.PassesThroughIffLarge`); on integer numbers it is an equivalence all the
  same.
* A set of a configuration value keeps the file valid exactly when the value meets the leaves of the template at or
  below its path (`SchemaPaths.SetConformsIffFits`).
* A configuration that is too long for the 4095 bytes that are read back cannot be read at all, as no proper prefix of
  an object parses. A run of sets that the template allows keeps the file valid exactly when every configuration on
  the way fits; after one that does not fit, every further set fails (`Configuration.RunKeepsFileValidIff`).
* A route that was tried without success leaves its parameters in the output map as far as it matched. Which names are
  bound to what, after any lookup, is given exactly: the last route and the last place that put a name decide
  (`Routes.BoundIffPut`, `Routes.OnlyParametersIff`, `Routes.HalfMatchLeavesName`).
* The address of an announcement is taken from the buffer of `inet_ntoa`, which every accepted client overwrites:
  another node, a client that announces nothing, and with musl, where the buffer is one for the process, also a client
  of the HTTP server. An announcement is recorded under the address of its sender exactly when the last client
  accepted since its connection, if any, has that address (`Network.AttributionIff`). A run attributes every
  announcement rightly exactly when none is overtaken in this way (`Network.AttributedIffUndisturbed`); otherwise a
  row can appear that nobody announced (`NetworkRuns.UnannouncedRowIsReachable`), and after a client on the node's own
  machine even one at its own address (`NetworkRuns.OwnRowIsReachable`). Without such a client no row is at an own
  address (`Network.RowsAreOthers`).
* A node gets a second row exactly when the SELECT of an insert fails although the node is listed, and the INSERT
  works (`NodeTables.InsertDistinctIff`, `Network.StepDistinctIff`).
* A boot does not rid a table of dead nodes. One that the sweep over the local database removed is in the table again
  exactly when a later exchange of that sweep stores it, and there are runs in which that happens
  (`Network.RemovedReturnsIff`, `NetworkRuns.RemovedNodeReturns`).

## Model

| member | source | states |
|---|---|---|
| ObjectTable.MaskIsRemainder | src/libs/parson/parson.c:555-584 | masking with capacity - 1 is the remainder by the capacity, for the powers of two the table uses |
| ObjectTable.EmptyCellExists | src/libs/parson/parson.c:455-495 | a table with fewer items than cells always has an empty cell, by counting, so every probe and every shift ends |
| ObjectTable.LayoutInsert | src/libs/parson/parson.c:586-620 | writing a new item into the empty cell where its probe stopped keeps every item reachable and the two index arrays inverse |
| ObjectTable.TakenOutInverse | src/libs/parson/parson.c:663-679 | after the last item took the slot of a removed one, cells and items point to each other again, away from the cell to be vacated |
| ObjectTable.ShiftStart | src/libs/parson/parson.c:663-679 | moving the last item into the slot of a removed one leaves a table with one hole, in which only items behind the hole may miss their probe |
| ObjectTable.PathContinues | src/libs/parson/parson.c:681-695 | a wrapped probe path that covers the hole and ends behind the scanned cells also covers the next cell |
| ObjectTable.ShiftMove | src/libs/parson/parson.c:688-694 | moving an item whose probe path covers the hole into the hole keeps the shift invariant around the new hole |
| ObjectTable.ShiftStay | src/libs/parson/parson.c:688-695 | an item whose probe path avoids the hole may stay |
| ObjectTable.ShiftEnd | src/libs/parson/parson.c:683-696 | at the first empty cell the hole can be emptied: no item has it on its probe path any more |
| ObjectTable.NextCell | src/libs/parson/parson.c:681-695 | the wrap-around scan neither comes back to the hole nor passes the empty cell |
| ObjectTable.JsonObject.Init | src/libs/parson/parson.c:455-495 | a new table is valid and empty, for any hash function |
| ObjectTable.JsonObject.Probe | src/libs/parson/parson.c:555-584 | the probe finds a key exactly when it is stored, and otherwise the first empty cell on its path |
| ObjectTable.JsonObject.GetCellIx | src/libs/parson/parson.c:555-584 | the cell found is that of the key's position in the item order |
| ObjectTable.JsonObject.GetValue | src/libs/parson/parson.c:622-638 | a lookup in the table is a lookup in its item list |
| ObjectTable.JsonObject.Append | src/libs/parson/parson.c:586-620 | storing in the five parallel arrays appends one item and keeps the table valid |
| ObjectTable.JsonObject.Add | src/libs/parson/parson.c:586-620 | fails exactly on a stored key; otherwise the item goes last, whatever rehash happened; its termination measure shows that no rehash nests another |
| ObjectTable.JsonObject.GrowAndRehash | src/libs/parson/parson.c:525-553 | doubles the cells, keeps items and order, and leaves room |
| ObjectTable.JsonObject.AddAllTo | src/libs/parson/parson.c:540-549 | every item can be added to the larger table, in order, and none triggers a rehash there |
| ObjectTable.JsonObject.SetValue | src/libs/parson/parson.c:2084-2125 | an old key keeps its place with the new value, a new one is appended |
| ObjectTable.JsonObject.MoveLast | src/libs/parson/parson.c:671-679 | the last item fills the freed slot in all parallel arrays and its cell follows it |
| ObjectTable.JsonObject.SwapWithLast | src/libs/parson/parson.c:663-679 | taking an item out leaves exactly the other items, and a table ready for the shift |
| ObjectTable.JsonObject.ShiftBack | src/libs/parson/parson.c:681-696 | the shift loop ends in a valid table again |
| ObjectTable.JsonObject.Remove | src/libs/parson/parson.c:640-698 | succeeds exactly on a stored key, and then exactly that key is gone, with the last item in its place |
| ObjectTable.JsonObject.Clear | src/libs/parson/parson.c:2291-2308 | leaves a valid empty table with the same arrays |
| TableRuns.GetIsMapLookup | src/libs/parson/parson.c:622-638 | on distinct keys the item list and the finite map answer every lookup alike |
| TableRuns.ApplyRefines | src/libs/parson/parson.c:586-698 | each operation does to the item list what it does to a finite map |
| TableRuns.RunRefines | src/libs/parson/parson.c:440-698 | over any run of add, set, remove and clear the item list is the map the same run builds, and its keys stay distinct |
| TableRuns.Execute | src/libs/parson/parson.c:440-698 | the hash table performs any run as the item list does, through all rehashes |
| Unicode.EncodeThenVerify | src/libs/parson/parson.c:350-390 | the UTF-8 form of every scalar value (section 3 of RFC 3629) is accepted as one sequence and decodes to that value |
| Unicode.EncodingIsUtf8 | src/libs/parson/parson.c:807-854 | the bytes stored for a scalar value are those of section 3 of RFC 3629: as many as its range asks for, with the bits of the value behind the marks, first byte first |
| Unicode.VerifyThenEncode | src/libs/parson/parson.c:335-390 | an accepted sequence is the shortest form of a scalar value: no overlong form, surrogate or value above 0x10FFFF passes |
| Unicode.ValidIffEncoding | src/libs/parson/parson.c:392-402 | is_valid_utf8 accepts exactly the concatenations of such encodings |
| Unicode.CheckUtf8 | src/libs/parson/parson.c:392-402 | the loop decides that |
| StringLiteral.EscapeIffSpells | src/libs/parson/parson.c:807-854 | an escape decodes exactly when it spells a scalar value, as one unit or as a surrogate pair (section 2.2 of RFC 2781); unpaired surrogates are rejected |
| StringLiteral.EscapeIsUtf8 | src/libs/parson/parson.c:807-854 | the bytes written for an escape are one UTF-8 sequence of the code point it spells |
| StringLiteral.EscapeTextDecodes | src/libs/parson/parson.c:807-854 | every escape that stands for a scalar value, with hexadecimal digits in either case, decodes to its UTF-8 form |
| StringLiteral.DecodingConsumesSpan | src/libs/parson/parson.c:856-911 | decoding a span that skip_quotes accepted ends exactly at the closing quote, with no more bytes than the span has |
| StringLiteral.DecodingDependsOnSpan | src/libs/parson/parson.c:319-333 | two texts with the same span decode alike, whatever follows the closing quote |
| StringLiteral.UnitReadsUpToNul | src/libs/parson/parson.c:319-333 | of the four bytes of a unit, exactly those with no NUL before them are looked at |
| StringLiteral.UnitLooksPastQuote | src/libs/parson/parson.c:319-333 | a unit is read past the closing quote exactly when the quote stands among its four places; a byte of the text there is looked at when there is one |
| StringLiteral.EscapeLooksPastQuote | src/libs/parson/parson.c:807-854 | an escape is read past the closing quote exactly when the quote cuts off its first unit, or the second of what starts as a surrogate pair; it is refused then |
| StringLiteral.DecodingLooksPastQuote | src/libs/parson/parson.c:856-911 | decoding looks past the closing quote exactly when it stops at an escape that the quote cuts off; what it accepts it never reads past the quote |
| StringLiteral.DecodingStaysInText | src/libs/parson/parson.c:856-911 | decoding never looks past the terminating NUL |
| StringLiteral.ShortUnitLooksPastQuote | src/libs/parson/parson.c:319-333 | a literal with a unit of two digits, where a byte behind the quote is looked at |
| StringLiteral.ParseUtf16Hex | src/libs/parson/parson.c:319-333 | the unit of four digits, and how many bytes were looked at for it |
| StringLiteral.QuoteRoundTrip | src/libs/parson/parson.c:1290-1359 | every byte string, with NUL and control bytes, reads back from its quoted form, right up to the closing quote, under both slash settings |
| StringLiteral.SkipQuotes | src/libs/parson/parson.c:787-805 | the scan finds the closing quote if there is one |
| StringLiteral.ParseUtf16 | src/libs/parson/parson.c:807-854 | writes the bytes of the escape in place and moves both cursors to its last byte |
| StringLiteral.ProcessString | src/libs/parson/parson.c:856-911 | decodes the span into a buffer of its length plus one, which always suffices |
| StringLiteral.GetQuotedString | src/libs/parson/parson.c:913-922 | scanning and decoding together are the function that the laws are about |
| Recognition.StringIff | src/libs/parson/parson.c:787-922 | a string literal is decoded to a text exactly when the grammar has it stand for that text: plain bytes from 0x20 on, the eight short escapes, and escapes of code points in hexadecimal digits of either case |
| Doubles.RoundIsRounding | src/libs/parson/parson.c:1099-1103 | rounding to the nearest double keeps order and sign, and every double as it is |
| Doubles.RoundFindsNearest | src/libs/parson/parson.c:1099-1103 | no double is nearer to a number than the one it is rounded to |
| Doubles.RoundIsDouble | src/libs/parson/parson.c:1104-1106 | what does not reach the overflow limit is rounded to a finite double |
| Doubles.NearRoundsBack | src/libs/parson/parson.c:68 | a number that differs from a double by one part in 2 * 10^16 at most is rounded to that double |
| Decimals.SeventeenAreNear | src/libs/parson/parson.c:68 | the digits that are printed are at most seventeen, and differ from the number by no more than that |
| Decimals.PartsDenote | src/libs/parson/parson.c:1269-1270 | in each layout of %g, plain, with leading zeros or with an exponent, the text denotes the digits printed |
| Decimals.StrtodOfParts | src/libs/parson/parson.c:1103 | strtod takes a text of that form whole, and finds the number it denotes |
| Decimals.NumberRoundTrip | src/libs/parson/parson.c:1099-1112 | every finite double is read back from its printed text, when nothing after it extends a number |
| Decimals.WholeText | src/libs/parson/parson.c:1269-1270 | a whole number below 10^16 is printed with its digits |
| Decimals.NumberIsPrinted | src/libs/parson/parson.c:1269-1270 | a positive double is printed as a decimal of at most seventeen digits that no other such decimal is nearer to, without superfluous zeros, with a power of ten exactly below 10^-4 and from 10^17 on |
| Decimals.NegativeIsPrinted | src/libs/parson/parson.c:1269-1270 | a negative double is printed as its opposite behind a minus sign |
| Decimals.NumberChars | src/libs/parson/parson.c:1269-1270 | the text holds digits, signs, dots and "e" only |
| Decimals.NumberIsShort | src/libs/parson/parson.c:72 | no finite double takes more than 24 characters |
| Numeral.ParsedNumberIsDouble | src/libs/parson/parson.c:1099-1112 | what is parsed is a finite double |
| Recognition.NumberIff | src/libs/parson/parson.c:1099-1112 | a number is read exactly where the grammar has one: the longest run of digits, fraction and exponent, without superfluous leading zero, whose number rounds to that finite double; or a lone minus sign where strtod does not report it |
| Parser.ParseAdvancesUnlessBareMinus | src/libs/parson/parson.c:924-1127 | a successful parse moves the cursor strictly forward, except exactly on a minus sign that strtod converts nothing of, where strtod leaves errno at 0 |
| Parser.NothingConvertedIffBareMinus | src/libs/parson/parson.c:1099-1112 | strtod converts nothing of a text that starts with a minus sign exactly when no digit follows, no dot and digit, and neither "inf" nor "nan" |
| Parser.BareMinusParses | src/libs/parson/parson.c:1099-1112 | the text "-" parses as 0 where strtod leaves errno at 0, and is refused where it sets EINVAL |
| Parser.AllAdvanceIff | src/libs/parson/parson.c:1101-1109 | every successful parse of every text moves the cursor strictly forward exactly where strtod sets EINVAL when it converts nothing |
| Parser.ParsedIsWellFormed | src/libs/parson/parson.c:924-1069 | parsed objects have distinct NUL-free keys, and no value lies deeper than the limit |
| Parser.NestingLimitIsExact | src/libs/parson/parson.c:924-1069 | text that parses under a larger limit is rejected exactly when its deepest value is below the limit, and parses to the same value otherwise |
| Recognition.ParsedIffValue | src/libs/parson/parson.c:924-1127 | a value is parsed from one place to another exactly when the grammar has it there and its nesting fits the limit: white space anywhere between tokens, a comma allowed before a closing bracket, distinct keys, all of it stated without the parser |
| Recognition.ParsedIffText | src/libs/parson/parson.c:1383-1391 | json_parse_string finds exactly the value that stands at the start of the text, behind a byte order mark if there is one, up to 2048 levels deep |
| ParserLoops.ParseValue | src/libs/parson/parson.c:924-947 | the recursive methods terminate on every text and compute the parse function, limit 2048 |
| ParserLoops.ParseObjectValue | src/libs/parson/parson.c:949-1020 | objects are built member by member in a hash table whose items are the parsed members; with `Recognition.ParsedIffValue`, those the grammar has there, with white space allowed on both sides of a key, a colon, a value and a comma |
| ParserLoops.ParseMembersInto | src/libs/parson/parson.c:949-1020 | the member loop, with duplicate keys refused by the table; its members are those of the grammar by the same theorem |
| ParserLoops.ParseArrayValue | src/libs/parson/parson.c:1022-1069 | the same for arrays, in a growing buffer |
| ParserLoops.ParseItemsInto | src/libs/parson/parson.c:1022-1069 | the item loop |
| ParserLoops.ParseString | src/libs/parson/parson.c:1383-1391 | a byte order mark is stepped over |
| ArrayBuffer.JsonArray.Resize | src/libs/parson/parson.c:746-762 | keeps the items in a buffer of the new capacity |
| ArrayBuffer.JsonArray.Add | src/libs/parson/parson.c:733-744 | appends, whether or not the buffer had to grow |
| RoundTrip.ValueRoundTrip | src/libs/parson/parson.c:924-1355 | for every tree of finite doubles with distinct NUL-free keys: the parser reads the text of the tree, standing anywhere in any text and at any nesting within the limit, back as the same tree in the same order, and stops right behind it |
| RoundTrip.SerializeThenParse | src/libs/parson/parson.c:1146-1391 | the whole text of such a tree, compact or pretty, under either slash setting, parses back to the tree |
| RoundTrip.SerializeThenParseWithTail | src/libs/parson/parson.c:1383-1391 | the text of a tree is read back whatever follows it, if that does not go on a number |
| RoundTrip.ParsedStringIsPrintable | src/libs/parson/parson.c:1099-1112 | every number of a parsed tree is a finite double |
| RoundTrip.ParseThenSerialize | src/libs/parson/parson.c:1146-1391 | for every text that parses, the printed form of the result parses to the same tree |
| Locality.StrtodIsLocal | src/libs/parson/parson.c:1099-1112 | a numeral that is ended by a space, a comma or a closing bracket is read the same whatever follows |
| Locality.ValueIsLocal | src/libs/parson/parson.c:924-1127 | a value that was parsed from a text is parsed the same from every text that starts with it, a number if something ends it |
| Locality.ProperPrefixNeverParses | src/libs/parson/parson.c:924-1391 | no proper prefix of the text of an object, an array or a string parses |
| Serializer.TextIsCString | src/libs/parson/parson.c:1146-1355 | a serialization holds no NUL byte, so strlen finds its end, and each nesting level takes two bytes |
| SerializerLayout.PrettyIsFormatted | src/libs/parson/parson.c:1146-1288 | the pretty text is the compact one laid out byte by byte: behind an opening bracket and a comma a new line with four blanks for each open bracket, before a closing one a new line with those outside of it, behind a colon one blank, nothing inside literals and empty brackets |
| SerializerLayout.CompactIsTight | src/libs/parson/parson.c:1146-1359 | the compact text has no white space outside of literals, and is the pretty one without such white space; literals hold no control character, and a slash in one follows a backslash exactly when slashes are escaped |
| SerializerLayout.QuoteIsShortest | src/libs/parson/parson.c:1290-1359 | no literal that stands for a string is shorter than the one written; escaping slashes adds one byte for each slash |
| SerializerLayout.ControlCharacterText | src/libs/parson/parson.c:1290-1359 | a control character without a short escape is written with lower-case hexadecimal digits |
| SerializerLoops.SerializeString | src/libs/parson/parson.c:1290-1359 | with a buffer or without one, the result is the length of the quoted text; with one, that text and a NUL are written and nothing else |
| SerializerLoops.SerializeToBufferR | src/libs/parson/parson.c:1146-1288 | measuring and writing return the same length; writing puts the text, whose bytes `SerializerLayout.PrettyIsFormatted` and `CompactIsTight` give, and one NUL at its end, and touches no other byte |
| SerializerLoops.SerializeArray | src/libs/parson/parson.c:1158-1189 | the same for the array branch |
| SerializerLoops.SerializeObject | src/libs/parson/parson.c:1190-1238 | the same for the object branch, with the blank behind each colon and the line of each member as that layout has them |
| SerializerLoops.NumberFits | src/libs/parson/parson.c:1261-1279 | the text of a finite double fits the number buffer |
| SerializerLoops.SerializationSize | src/libs/parson/parson.c:1799-1803 | the measured size is the length of the text and one |
| SerializerLoops.SerializeToBuffer | src/libs/parson/parson.c:1805-1816 | refuses exactly the buffers that are too small, and otherwise writes the text, its terminator and nothing behind it |
| SerializerLoops.SerializeToString | src/libs/parson/parson.c:1840-1857 | allocates exactly the text and its terminator |
| Comments.RemoveComments | src/libs/parson/parson.c:239-272 | the in-place loop computes the blanked text, of the same length |
| Comments.TokensCoverText | src/libs/parson/parson.c:239-272 | the code, escape, literal and comment tokens of a text make up the text |
| Comments.StripBlanksComments | src/libs/parson/parson.c:239-272 | exactly the bytes of comment tokens become blanks; string literals, escapes and code keep theirs |
| Comments.StripKeepsSerialized | src/libs/parson/parson.c:239-272 | no serialization is changed, even when its strings hold comment openers |
| Comments.ParseStringWithComments | src/libs/parson/parson.c:1393-1406 | strips block comments, then line comments, then parses |
| Comments.ParsedWithCommentsIff | src/libs/parson/parson.c:1393-1406 | what is found is the value that the grammar has at the start of the text in which first the block comment tokens are blanked, and then the line comment tokens of what is left |
| Comments.SerializeThenParseWithComments | src/libs/parson/parson.c:1393-1406 | parsing with comments undoes serializing too |
| Validation.EnoughMembers | src/libs/parson/parson.c:2342-2361 | an object with all the keys of a schema has at least as many members: the early count test rejects nothing |
| Validation.ValidateIffConforms | src/libs/parson/parson.c:2310-2368 | json_validate decides the conformance relation that its header describes |
| Validation.ConformsIsTransitive | src/libs/parson/parson.h:124-134 | conformance is transitive through a value without an empty array |
| Validation.TransitiveIffNotLoose | src/libs/parson/parson.h:124-134 | through a given value it is transitive, for all schemas and values that parson can build, exactly when the value is not loose |
| Validation.NoOpenArrayIsNotLoose | src/libs/parson/parson.h:124-134 | a value without an empty array is not loose |
| Equality.EqualsIffSameTree | src/libs/parson/parson.c:2370-2433 | two trees are equal exactly when they are the same up to the order of members and numbers within the tolerance: the same strings, booleans, nulls, item lists and keys |
| Equality.EqualsIsReflexive | src/libs/parson/parson.c:2370-2433 | every tree equals itself |
| Equality.SameKeys | src/libs/parson/parson.c:2398-2413 | two objects of one size have the same keys when the keys of one are keys of the other |
| Equality.EqualsIsSymmetric | src/libs/parson/parson.c:2370-2433 | the comparison is symmetric although it walks the keys of one side |
| Equality.EqualsIsTransitive | src/libs/parson/parson.c:2370-2433 | it is transitive on trees with integer numbers, and between trees of doubles through one whose numbers are 2^33 in size at least |
| Equality.EqualsIsNotTransitive | src/libs/parson/parson.c:2424-2425 | three numbers, 2^-20 apart, for which it is not, however differences are rounded |
| Tolerance.EpsilonIsLiteral | src/libs/parson/parson.c:2424-2425 | the tolerance is the double nearest to 0.000001 |
| Tolerance.Neighbours | src/libs/parson/parson.c:2424-2425 | below 2^33 in size, every double has two doubles around it, each within the tolerance of it and not of each other |
| Tolerance.NoNeighbours | src/libs/parson/parson.c:2424-2425 | from 2^33 on, doubles within the tolerance of one double are within the tolerance of each other |
| Equality.PassesThroughIffLarge | src/libs/parson/parson.c:2370-2433 | between trees of doubles, equality passes through a tree exactly when each of its numbers is 2^33 in size at least |
| Equality.DeepCopy | src/libs/parson/parson.c:1709-1797 | the copy is the same tree in the same item order and equals the original; no addition fails |
| Equality.CopyMembers | src/libs/parson/parson.c:1742-1771 | the copied table holds the members in order |
| DotPath.PathIsBetweenDots | src/libs/parson/parson.c:1441-1448 | the keys of a dotted name are the texts between its dots |
| DotPath.DotGetWalks | src/libs/parson/parson.c:1441-1448 | a dotted lookup is the walk along the keys between the dots |
| DotPath.DotSetIsSetPath | src/libs/parson/parson.c:2172-2221 | a dotted set is a set along those keys, with missing levels created |
| DotPath.GetAfterSet | src/libs/parson/parson.c:2172-2221 | after a successful dotset, dotget finds the value |
| DotPath.SetSucceedsIff | src/libs/parson/parson.c:2172-2221 | a set fails, and then changes nothing, exactly when a key before the last holds something other than an object |
| DotPath.WalkAtOrBeyond | src/libs/parson/parson.c:2172-2221 | at the path of a set and beyond it the new value is found, and only that |
| DotPath.WalkBefore | src/libs/parson/parson.c:2172-2221 | on the way there are objects, old or created, with the rest of the path set |
| DotPath.WalkElsewhere | src/libs/parson/parson.c:2172-2221 | every path that is neither prefix nor extension is as before |
| ObjectTree.TreeObject.SetSlot | src/libs/parson/parson.c:2084-2125 | in a tree of objects held by reference: an old name is bound anew in its place, a new one goes last |
| ObjectTree.TreeObject.DotSet | src/libs/parson/parson.c:2172-2221 | the update in place does to the tree what the dotted set does to its value, keeps it a tree, and leaves all of it alone when it fails |
| ObjectTree.TreeObject.SetBelow | src/libs/parson/parson.c:2187-2196 | the object on the way stays the same object in the same place, and no sibling of it changes |
| ObjectTree.TreeObject.EnterBelow | src/libs/parson/parson.c:2187-2196 | a set in a nested object leaves its siblings valid, apart from it, and with the values they had |
| ObjectTree.TreeObject.SetMissing | src/libs/parson/parson.c:2197-2220 | a missing level is hung in only after the rest of the path was built in it |
| ObjectTree.TreeObject.DotGet | src/libs/parson/parson.c:1441-1448 | the lookup finds the object or value itself, as part of the tree |
| NodeTables.NodeTable.InsertNewNode | src/libs/db/table.c:157-193 | adds a node unless its row is delivered, and reports which case it was; any other outcome of the SELECT, a failure too, goes on to the INSERT |
| NodeTables.NodeTable.RemoveNode | src/libs/db/table.c:100-109 | removes every row of the node and no other |
| NodeTables.NodeTable.GetAllActiveNodes | src/libs/db/table.c:112-154 | fills the array with the first active nodes, at most its size; an error between two rows ends the list early |
| NodeTables.InsertDistinctIff | src/libs/db/table.c:173-192 | an insert leaves the nodes distinct exactly when they were, and it is not one whose SELECT fails on a listed node while the INSERT works |
| NodeTables.InsertLists | src/libs/db/table.c:157-193 | after an insert that works the node is listed, and every other node as before |
| NodeTables.WithoutKeepsDistinct | src/libs/db/table.c:100-109 | nor does a removal |
| NodeTables.FewActiveNodesAreAll | src/libs/db/table.c:112-154 | in a table of at most that many rows every active node is returned |
| NodeTables.ListingJoins | src/libs/db/table.c:112-154 | a listing takes active rows in their order, up to its limit, and passes none over |
| NodeTables.ListingOfOne | src/libs/db/table.c:112-154 | of one row the node is listed exactly when it is active |
| NodeTables.RemovalJoins | src/libs/db/table.c:100-109 | a removal leaves the rows of other nodes in their order |
| Wire.UnderstoodByMethod | src/libs/geonsp/geonsp.c:200-266 | a request with a method is understood by the first characters of it, "GET_VERSION", "GET_NODES" or "ADD_NODE", and an announcement has its port at "data.node_gateway_port" |
| Wire.AnnouncementText | src/libs/geonsp/geonsp.c:80-92 | the text sent has the method "ADD_NODE" and the port at "data.node_gateway_port" |
| Wire.PortTruncates | src/libs/geonsp/geonsp.c:258 | a port number is cut towards zero, and what is no number counts as 0 |
| Wire.AnnouncementArrives | src/libs/geonsp/geonsp.c:87-92 | the text of an announcement is understood as an announcement of the same port, whatever an earlier message left behind it |
| Wire.NodesRequestArrives | src/libs/geonsp/geonsp.c:95-97 | the text of a request for nodes is understood as one, whatever an earlier message left behind it |
| Wire.FirstNodesArrive | src/libs/geonsp/geonsp.c:41-53 | of the nodes in a reply, as many are read from the start as a byte counts |
| Wire.NodesArrive | src/libs/geonsp/geonsp.c:41-53 | the initiator reads from the reply exactly the nodes the responder put in, in order |
| Wire.NodesReplyFits | src/libs/geonsp/geonsp.c:36-41 | a reply with up to sixteen nodes leaves room for the terminator in the 4096 bytes that receive it |
| Exchange.GreetsExactlyOnSuccess | src/libs/geonsp/geonsp.c:146-159 | a reply counts as a greeting exactly when it reports success with a message |
| Exchange.GreetsByStatus | src/libs/geonsp/geonsp.c:146-159 | an answer with a status counts as a greeting exactly when that starts with "success" and there is a message |
| Exchange.HelloArrives | src/libs/geonsp/geonsp.c:100-102 | the greeting is understood as a request for the version |
| Exchange.ReplyHasNoNodes | src/libs/geonsp/geonsp.c:182-197 | a reply without data, whatever its message, adds no node |
| Exchange.NodeServerCallback | src/libs/geonsp/geonsp.c:200-290 | every request text gets the reply and the return code of its kind, and only an announcement changes the table, by the sender's address with the announced port. Read as JSON, the reply to an announcement has status "success" exactly when the table grew by that row, "already been added" exactly when a listed row was delivered, the fetch error exactly when the database did not open, and the insert error exactly otherwise; the other replies have their status, message and entries |
| Exchange.Register | src/libs/geonsp/geonsp.c:252-273 | the four outcomes of an announcement, each told by its own status and message |
| Exchange.GiveNodes | src/libs/geonsp/geonsp.c:218-251 | the reply lists the active nodes of the table, at most sixteen, each with its address, port and status |
| Exchange.StoreNodes | src/libs/geonsp/geonsp.c:48-60 | the loop over the entries stores them in order, without the own ones |
| Exchange.StoredRows | src/libs/geonsp/geonsp.c:48-60 | storing adds only entries of the reply with a foreign address |
| Exchange.StoredDistinctIff | src/libs/geonsp/geonsp.c:48-60 | storing leaves the nodes distinct exactly when they were, and no insert meets a listed node with a failing SELECT |
| Exchange.StoredHasEntries | src/libs/geonsp/geonsp.c:48-60 | every foreign entry whose insert does not fail is listed afterwards |
| Exchange.RequestsArrive | src/libs/socket/socket.c:269-281 | each request is understood whatever the buffer of the connection held before |
| Exchange.HandleNodeInfoExchange | src/libs/geonsp/geonsp.c:6-78 | with both sides run on message texts, and other clients announcing themselves to the responder before and after: the return code, and the new table of either side in each case |
| Exchange.AnnouncedKeepsRows | src/libs/geonsp/geonsp.c:252-272 | whatever others announce around it, a working announcement leaves its node and all former rows in the table of the responder |
| Exchange.ExchangeEffect | src/libs/geonsp/geonsp.c:18-75 | without a database error, and whatever others announce meanwhile, the responder lists the initiator, and the initiator every entry it was given except its own, and all it had |
| Boot.VisitAll | src/libs/server/server.c:68-72 | after a sweep every node that was reached and met no error lists this host, no peer lost a row, the own table has no own address, and no duplicate if no SELECT failed |
| Boot.ConnectLocaldbNodeServers | src/libs/server/server.c:43-77 | the sweep contacts the nodes of the snapshot, and fails exactly without a database |
| Boot.ConnectInitNodeServers | src/libs/server/server.c:80-108 | the first sweep removes nobody, and what it achieved survives the second |
| Network.StepKeepsInv | src/libs/geonsp/geonsp.c:6-78 | every step of every node keeps the invariant of the network, for any choice of what may be listed where, if what the step records may be |
| Network.RunKeepsInv | src/libs/server/server.c:111-150 | so does every run, with nodes that boot, serve, stop and restart in any order |
| Network.AnyRunKeepsInv | src/libs/server/server.c:111-150 | without any condition, every run keeps to tables of nodes, and to replies and destinations of at most sixteen |
| Network.RowsAreOthers | src/libs/geonsp/geonsp.c:252-272 | in every state of a run in which no host accepts a client from its own machine that announces nothing, however exchanges overlap, each row of a table is at an address of another node, or of a machine that is no node |
| Network.BufferIsLastAccepted | src/libs/socket/socket.c:105-126 | the address buffer of a responder holds the address of the client it accepted last, whoever that was |
| Network.AttributionIff | src/libs/socket/socket.c:105-139 | an announcement is recorded under the address of its connection exactly when the last client the responder accepts in between, if any, is seen at that address too |
| Network.AttributedIffUndisturbed | src/libs/socket/socket.c:105-139 | a run from the start attributes every announcement rightly exactly when, in its list of steps, none is overtaken in that way |
| Network.Provenance | src/libs/geonsp/geonsp.c:252-272 | in every state that a run reaches in whose steps no announcement is overtaken, each row of a table names an address and port that another node, which has the address, announced in that run |
| NetworkRuns.OverlapMisattributes | src/libs/socket/socket.c:105-139 | wherever two nodes are about to contact the same serving node, their exchanges can overlap so that it lists the port of one with the address of the other |
| NetworkRuns.ForeignMisattributes | src/libs/socket/socket.c:105-139 | a client that announces nothing does as much, wherever a node is about to contact a serving one |
| NetworkRuns.UnannouncedRowIsReachable | src/libs/socket/socket.c:105-139 | a run from the start that ends with a row nobody announced |
| NetworkRuns.OwnRowIsReachable | src/libs/socket/socket.c:105-139 | a run from the start that leaves a node with a row at its own address |
| Network.StepDistinctIff | src/libs/db/table.c:173-192 | a step leaves the nodes of every table distinct exactly when it is no insert whose SELECT fails on a listed node |
| Network.RunStaysDistinct | src/libs/db/table.c:173-192 | without such a step no run gives a node two rows |
| Network.LogIsHistory | src/libs/geonsp/geonsp.c:18-30 | the log of announcements is exactly what the run sent |
| Network.TableShrinksOnlyInLocalSweep | src/libs/server/server.c:68-72 | a table loses rows only when the sweep over the local database cannot reach a node, and then exactly the rows of that node |
| Network.ServingForgetsNobody | src/libs/geonsp/geonsp.c:200-290 | a node that keeps serving keeps every row |
| Network.AnnouncedIsListed | src/libs/geonsp/geonsp.c:252-272 | after an announcement with a working insert the responder lists the node it recorded for as long as it serves |
| Network.FetchedIsStored | src/libs/geonsp/geonsp.c:41-64 | whatever other nodes do meanwhile, an exchange ends with every entry sent, at most sixteen, in the table of the initiator, except its own |
| Network.MessagesArrive | src/libs/geonsp/geonsp.c:18-53 | in every such state the message texts say what the steps do, whatever the buffer held before |
| Network.StepsAreTheLoop | src/libs/geonsp/geonsp.c:48-60 | the storing steps, done without a break, end with the table that the loop of the exchange computes |
| Network.LocalSweepSkipsNobody | src/libs/server/server.c:68-72 | where no row is at an own address, the sweep over the local database meets none |
| Network.ListedIffStored | src/libs/server/server.c:68-72 | in the rest of a local sweep a node that is no destination any more is listed exactly when it was, or a later exchange stores it |
| Network.RemovedReturnsIff | src/libs/server/server.c:68-72 | a node the local sweep removed is in the table again exactly when a later exchange of that sweep stores it with an insert that works |
| NetworkRuns.PeerBringsNodeBack | src/libs/geonsp/geonsp.c:41-64 | when the next destination serves and lists the removed node first, a fault-free exchange with it brings the node back |
| NetworkRuns.RemovedNodeReturns | src/libs/server/server.c:43-108 | a run from the start to a sweep that removes a node which is down, and steps of the same sweep that bring it back |
| SchemaPaths.ConformsIffMeetsAll | src/libs/parson/parson.c:2310-2368 | an object conforms exactly when each leaf of the schema is met at its dotted path |
| SchemaPaths.SetConformsIffFits | src/libs/config/config.c:157-215 | a successful dotted set on a conforming object leaves it conforming exactly when the value fits the schema at the path |
| SchemaPaths.LeafFits | src/libs/config/config.c:157-215 | at a leaf exactly the values of its type fit |
| SchemaPaths.AnythingFitsIff | src/libs/config/config.c:157-215 | every value fits at a path exactly when null does, which is when the schema has no leaf there or beyond, other than a null at the path |
| Configuration.GetDefaultConfig | src/libs/config/config.c:50-66 | the dotted sets succeed one after the other and build the nested default object |
| Configuration.DefaultConforms | src/libs/config/config.c:50-92 | the default configuration conforms to the template |
| Configuration.LeafIffTemplatePath | src/libs/config/config.c:50-66 | the leaves of the template are the seven paths that are set |
| Configuration.DefaultFits | src/libs/config/config.c:95-103 | the default file fits the 4095 bytes that are read back |
| Configuration.WrittenIsRead | src/libs/config/config.c:117-132 | a text that fits reads back as the value written, however deep it is |
| Configuration.CutIsLost | src/libs/config/config.c:117-132 | a configuration whose text does not fit the 4095 bytes cannot be read back at all |
| Configuration.SetIsSeen | src/libs/config/config.c:157-215 | from the file before a set to the file after it: where nothing but objects is on the way along the key, a get finds the number, string, boolean, null or value that was set, and every unrelated key is as before; otherwise, and for a string that is no UTF-8, the configuration is as before |
| Configuration.DefaultValues | src/libs/config/config.c:50-66 | what a get finds in the default configuration and in the template at each of the seven keys |
| Configuration.CallKeepsFileValidIff | src/libs/config/config.c:157-215 | an acceptable set leaves a valid file, with the updated configuration, in which `SetIsSeen` finds the setting, exactly when its text fits, or it wrote none |
| Configuration.LostStaysLost | src/libs/config/config.c:157-164 | a file that cannot be read is left alone by every further set |
| Configuration.RunKeepsFileValidIff | src/libs/config/config.c:157-215 | any run of such sets leaves a valid file, with the configuration that the sets alone make one after the other, exactly when each configuration on the way fits; otherwise the file cannot be read |
| Configuration.WhatFits | src/libs/config/config.c:157-215 | at a leaf of the template the values of its type are acceptable, and everything is exactly at the keys that are neither a template path nor the start of one |
| Configuration.ConfigManager.GetConfig | src/libs/config/config.c:117-154 | the whole configuration, or what the dotted key leads to |
| Configuration.ConfigManager.SetConfig | src/libs/config/config.c:157-215 | which calls succeed, and the new file: pretty text, in which a get finds what was set and everything else as before |
| Configuration.ConfigManager.IsValidConfig | src/libs/config/config.c:68-92 | accepts exactly the files whose configuration conforms |
| Configuration.ConfigManager.CreateDefaultConfig | src/libs/config/config.c:95-103 | the file is pretty text and reads back as the default configuration |
| Configuration.ConfigManager.LoadConfig | src/libs/config/config.c:16-40 | what is loaded, setting by setting and key by key, from any file with an address, of which the longest start without NUL of at most 39 bytes is kept; from a conforming file every lookup finds a value of the type that is read |
| Configuration.ConfigManager.InitConfigManager | src/libs/config/config.c:106-114 | whatever the file held, settings are loaded from a valid one, and a valid file is not replaced |
| StringMaps.BoundAfterPut | src/libs/core/strmap.c:10-30 | a put binds its key and nothing else |
| StringMaps.BoundAfterRemove | src/libs/core/strmap.c:53-73 | a removal unbinds its key and nothing else |
| StringMaps.StringMap.Put | src/libs/core/strmap.c:10-30 | on the linked list: an old key gets its value in place, a new one goes to the front |
| StringMaps.StringMap.Get | src/libs/core/strmap.c:32-42 | the value bound to the key |
| StringMaps.StringMap.Remove | src/libs/core/strmap.c:53-73 | unlinks the node of the key, at the head or behind it, and keeps the order of the others |
| Routes.JoinedSplits | src/libs/http/http.c:437-476 | splitting the path made of some segments gives the segments back |
| Routes.TokensKeepText | src/libs/http/http.c:338-351 | splitting loses nothing but slashes |
| Routes.Split | src/libs/http/http.c:338-351 | the strtok_r loop computes the segments |
| Routes.HTTPServer.SetHttpRoute | src/libs/http/http.c:415-493 | refuses exactly a full table or a pattern without segments, and otherwise appends one route, which for a pattern of fixed segments and names in braces does for every request what the pattern says |
| Routes.HTTPServer.IsRouteExists | src/libs/http/http.c:320-393 | for requests of at most 128 segments: the first route that matches, if any, and for every name what it is bound to afterwards |
| Routes.MatchRoute | src/libs/http/http.c:355-379 | the segment loop decides the match |
| Routes.CapturedMatches | src/libs/http/http.c:364-379 | capturing succeeds exactly when all fixed segments are those of the request |
| Routes.LeftBehindBinds | src/libs/http/http.c:355-385 | after any number of routes each name is bound to the request segment where the last route that puts it puts it last, and otherwise as before |
| Routes.BoundIffPut | src/libs/http/http.c:355-385 | from an empty map, a name is bound exactly when one of the routes tried has it as a parameter behind fixed segments that are those of the request |
| Routes.OnlyParametersIff | src/libs/http/http.c:355-385 | exactly the parameters of the route found are bound, if and only if no earlier route put another name |
| Routes.FoundParameters | src/libs/http/http.c:364-385 | each parameter of the route found is bound to the request segment at its last occurrence, whatever earlier routes put there |
| Routes.HalfMatchLeavesName | src/libs/http/http.c:364-379 | two routes and a request where a half-matched route leaves a name behind |
| Routes.PatternIsRoute | src/libs/http/http.c:415-493 | a pattern of fixed segments and names in braces becomes a route that matches exactly the requests with its fixed segments, and puts each name, without braces, at its place |
| Routes.PatternBinds | src/libs/http/http.c:320-493 | such a pattern with its parameters filled in finds its route or an earlier one; if its own, the lookup binds each name in braces to what was filled in at its last place |
| Routes.InstanceIsFound | src/libs/http/http.c:320-493 | a registered pattern with its parameters filled in finds that route or an earlier one |

## Left out

- Numbers: a double is the real it stands for, so negative zero is not part of this model, nor are infinities and
  NaNs, which JSON numbers never are; texts for which strtod reads hexadecimal, infinities or NaN are refused by the
  same checks as in the code. Rounding is to the nearest double, and of two to the even one; `Equality.Equals` is
  stated for every rounding of the difference.
- Allocation failure, the custom allocators, `free`, and the parent pointers of values.
- Sizes: capacities from 2^32 on and serializations from INT_MAX on, where the code's integers would overflow.
- ObjectTree.TreeObject.DotSet: each object here is its item list, not its hash table, and an array is a value; a
  value that is hung into two trees at once, which the code refuses by its parent pointer, is excluded.
  `Validation.Validate` and `Equality.Equals` read objects as item lists too.
- Keys are C strings: the length-counted variants of the get functions, and the removal of dotted names, are not
  modelled.
- json_parse_file, the array replacement functions and the custom number format are simple callers of what is
  modelled.
- ObjectTable.JsonObject.Clear: freeing the items is left out; the cells and the count are as the code leaves them.
- NodeTables.NodeTable.InsertNewNode: the SQL text is a table operation here. The length limit on addresses counts
  bytes, where SQLite counts characters; a quote in an address would end the SQL text early, and addresses here are
  those of connections.
- Exchange.HandleNodeInfoExchange: of what other clients of the responder do in between, it has their announcements;
  `Network.dfy` has every interleaving. Each message arrives whole in one receive.
- Network.Provenance: assumes that all clients that announce run this code, and that an address a node is reached or
  seen at is on no interface of another node. Addresses that all nodes have, such as the loopback address, are
  allowed.
- Requests and replies for which the code leaves C's defined behaviour, such as a method that is not a string or a
  port outside an unsigned short, are marked as such and get no answer. A receive that fails after an announcement,
  where the code indexes its buffer with -1, counts as an empty reply.
- Sockets, threads, ping, getifaddrs and the rest of the SQL layer are steps that succeed or fail.
- Configuration.ConfigManager.LoadConfig: requires an address that is a string, as the code copies from a null pointer
  otherwise; `Configuration.ConfigManager.InitConfigManager` establishes that.
- Files: a file is its text. Reading returns its first 4095 bytes, also when it is shorter.
- Routes.HTTPServer.IsRouteExists: segment lists of routes are sequences, as they do not change once built. More than
  128 request segments overrun a local array of the code and are excluded.
- HTTP request reading, file serving, MIME types, directory listing, the method checks, argument parsing, logging and
  the command line are plumbing.
