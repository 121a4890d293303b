# LED wall core: JSON, CSV and pixel pipeline

A model of the C core of an LED wall, with proofs about it. It has three parts.

**JSON (`src/parson/parson.c`).**
UTF-8 validation and the string codec (escapes, UTF-16 surrogate pairs), the recursive-descent parser on its shared
cursor, the serialiser with its sizing pass and its writing pass, the array-backed object map with swap-with-last
removal, dotted-path get, set and remove, deep copy, equality, schema validation and comment removal.
The parser, the serialiser, the string codec, comment removal and the operations of one object appear twice: as
functions on values (`Parser.dfy`, `Serializer.dfy`, `StringCodec.dfy`, …) and as imperative methods on a cursor, an
output buffer or the object's arrays (`ParserCursor.dfy`, `SerializerBuffer.dfy`, `ObjectMap.dfy`, …) whose contracts
tie them to the functions. Dotted set and remove, which the original performs on nested objects in place, are
functions from a tree to a status and the tree that is left. The laws (reading every text of the grammar, round trips,
refinement of a finite map, preservation) are proved of the functions.
`Grammar.dfy` and `Decimals.dfy` describe the texts of RFC 8259 on their own: structure, numbers, escapes and
hexadecimal digits have their definitions there and in `StringLaws.dfy`, apart from the code's tests for them.
Whitespace is that of `isspace`, which has vertical tab and form feed besides the four of RFC 8259.

**CSV (`src/utils/csv.c`).**
The one-loop row reader with its quote bookkeeping and its two growing buffers (`Csv.dfy`), against documents written
by section 2 of RFC 4180 and, for all other texts too, against a reading by fields and runs of quotes
(`CsvReading.dfy`).

**Pixels (`src/pixel.c`, `src/utils/list.c`, `src/opc/opc_client.c`).**
The doubly linked list, the grid scan, the permutation of a frame into strips, and the Open Pixel Control client over
connections that can fail at any byte, against a reference receiver.

Reading guide: `Bytes` → `Utf8`, `StringCodec`, `StringLaws` → `Json`, `Decimals`, `Parser`, `Serializer`, `Grammar`,
`RoundTrip`, `Language`, `Numbers`, `Utf8Trees` → `SerializerBuffer`, `Cursor`, `ObjectMap`, `ParserCursor` →
`DotPath`, `Sets`, `Compare`, `Verdicts`, `Comments`, `Commented`; `Csv` → `CsvReading`; `LinkedList` → `Pixels` →
`Strips` → `Opc`.

## How the C program is represented

- A byte is a Dafny `char`, so that C's character literals keep their form. Nothing needs codes above 255, and every
  result holds for them as well. A C string is a `Text` without NUL (`CStr`).
- A JSON value is an owned tree. An object is the list of its members in array order; order matters to the serialiser
  and to iteration, not to equality.
- A double is its sign and its magnitude. `strtod` and `sprintf` with `FLOAT_FORMAT` are the two fields of a `Libc`
  value, so that every result is for any libc. `ReadsNumerals` says that `strtod` reads every number of RFC 8259 whole,
  up to a byte that can follow it, and `Stable` that what it makes of a text depends only on the bytes it reads; which
  double it is, and whether it is in range, is libc's verdict. `PrintsBack` is what the round trip needs of one
  number; `Numbers.dfy` derives it for all integers up to 2^53 from how libc treats runs of plain digits, and exhibits
  a libc that behaves so.
- The tolerance of the equality is the double nearest to 0.000001, which is a little less; the difference of two
  numbers is taken exactly, where the code rounds it to a double.
- Memory allocation succeeds, and sizes fit their C types.
- How resolving, connecting and each `send` turn out is given with each call, and is arbitrary. A connection is numbered when it is opened, so a
  descriptor reused by the kernel is a new number.

## Results that differ from what one might expect

- The parser refuses the RFC 8259 number `0e1` (`RoundTrip.ZeroExponentRefused`). `is_decimal` lets a number of
  RFC 8259 through if and only if it is not a lone zero directly followed by an exponent (`Decimals.IsDecimalIff`);
  `RoundTrip.ParseRfc` says exactly which JSON texts are accepted.
- The parser accepts a lone minus sign without reading it (`Language.LoneSign`). Up to a place where a value can end it
  accepts nothing else that is not a document of the grammar (`Language.LanguageExact`); the numerals of that grammar
  are the plain ones that `strtod` reads, `1.` among them (`Json.PlainIff`, `Language.NumeralExact`).
- Equality compares numbers with a tolerance, so it is not transitive (`Compare.NotTransitive`). It is reflexive and
  symmetric; tolerances add up along a chain; over trees whose numbers come from a given set it is transitive exactly
  when nearness is on that set (`Compare.TransitiveIff`). It is an equivalence when any two of the numbers are the
  same or the tolerance apart, as multiples of a step are, integers among them (`Compare.MultiplesEquivalence`).
- Removing comments twice can change more than removing them once (`Comments.NotIdempotent`): exactly when a comment
  starts behind one that is never closed (`Comments.IdempotentIff`).
- The pass that removes block comments does not know line comments. A line comment is harmless exactly when that pass
  closes every block comment and string literal it sees in it and its text does not start with an asterisk
  (`Commented.LineGapIff`); `//*` at the start of a text makes the parser refuse it (`Commented.StarLineRefused`).
- `json_parse_string_with_comments` does not skip a byte order mark, unlike `json_parse_string`. On accepted texts
  without comments the two agree exactly when there is none (`Commented.AgreeIff`).
- The CSV reader drops carriage returns inside quoted fields, which RFC 4180 allows there
  (`Csv.CarriageReturnLost`). A document is returned exactly as written if and only if no field holds one
  (`Csv.DocumentReadIff`).
- On the text `a,"` the CSV reader has no place for a field's terminator (`Csv.QuoteAtEnd`). That happens if and only
  if the text ends, carriage returns aside, behind the opening quote of a field that is not the first of its row
  (`Csv.MisplacedIff`).
- The pixel client only complains about more than 21845 pixels and sends a header whose length has been truncated
  (`Opc.TooLong`). A receiver gets the message back if and only if there are at most 21845 (`Opc.ReceivedIff`).

## Model

| member | source | states |
|---|---|---|
| Utf8.VerifyEncode | src/parson/parson.c:199-239 | the encoding of every Unicode scalar value is decoded to that value and its length, whatever follows |
| Utf8.VerifySound | src/parson/parson.c:199-239 | whatever is accepted is the encoding of a scalar value: no overlong form, no surrogate, nothing beyond U+10FFFF |
| Utf8.IsValidUtf8 | src/parson/parson.c:241-251 | the pointer walk decides `ValidUtf8` |
| Utf8.ValidIffEncoding | src/parson/parson.c:184-251 | the accepted texts are exactly the concatenated encodings of scalar values (RFC 3629 sections 3 and 4) |
| Utf8.EncodingUnique | src/parson/parson.c:184-251 | no text encodes two different sequences of scalar values |
| StringCodec.SkipQuotesAt | src/parson/parson.c:541-559 | moves the pointer just past the closing quote, or fails when there is none |
| StringCodec.SkipEscape | src/parson/parson.c:541-605 | skip_quotes agrees with parse_utf16 on where an escape ends, surrogate pairs included |
| StringCodec.ParseUtf16Into | src/parson/parson.c:561-605 | stores the UTF-8 bytes behind those already written, leaves those alone, and reports what it read |
| StringLaws.UnitIs | src/parson/parson.c:157-182 | parse_utf16_hex takes exactly four hexadecimal digits of either case, as their value |
| StringLaws.ParseUtf16Exact | src/parson/parson.c:561-605 | an escape is accepted exactly when it spells the UTF-16 units of a scalar value (RFC 2781 section 2.2), and its UTF-8 encoding is stored |
| StringLaws.EscapeVerifies | src/parson/parson.c:199-239 | the bytes an escape stores are decoded by verify_utf8_sequence to the escaped code point |
| StringCodec.ProcessStopsAtQuote | src/parson/parson.c:610-662 | decoding a literal delimited by skip_quotes ends at its closing quote and writes no more bytes than it read |
| StringCodec.ProcessStringInto | src/parson/parson.c:610-662 | every store stays in the buffer sized from the input; the result is the decoded text cut at its first NUL |
| StringCodec.GetQuotedAt | src/parson/parson.c:666-675 | the decoded string, with the pointer behind the literal |
| StringLaws.QuotedKeepsUtf8 | src/parson/parson.c:610-662 | a literal of valid UTF-8 that decodes gives valid UTF-8 |
| Grammar.EscapesAre | src/parson/parson.c:624-632 | the two-character escapes the code takes are those of RFC 8259 section 7, with the code points given there |
| Grammar.PieceStep | src/parson/parson.c:610-650 | every legal character of a literal, plain, with a two-character escape or with \u escapes, is read in one turn as what it stands for, and skip_quotes does not stop in it |
| Grammar.StringRead | src/parson/parson.c:666-675 | every literal of RFC 8259 section 7 with paired surrogates is read as the string it stands for, cut at an escaped NUL, with reading left behind it |
| Grammar.QuotedExact | src/parson/parson.c:666-675 | get_quoted_string reads a string up to `rest` exactly when the text is a literal of RFC 8259 section 7, with paired surrogates, that stands for it |
| Grammar.StringRoundTrip | src/parson/parson.c:1005-1064 | serialising any C string and reading the literal back gives the string, with reading left just past the quote |
| Grammar.EscapesWritten | src/parson/parson.c:1005-1064 | every character that has a two-character escape in RFC 8259 is written so, the slash included, another control character with four lower-case digits, and everything else as it is |
| Parser.ParsedValueIsGood | src/parson/parson.c:677-808 | every parsed tree has distinct names in each object and no value under more than 2048 containers |
| ParserCursor.ParseValueAt | src/parson/parson.c:677-700 | the dispatching routine on the shared cursor returns what the text parses to and leaves the cursor behind it |
| ParserCursor.ParseStringAt | src/parson/parson.c:810-822 | a string value is the decoded literal, with the pointer behind it; a literal that does not decode fails |
| ParserCursor.ParseLiteralAt | src/parson/parson.c:824-856 | true, false and null are recognised as prefixes and skipped, other text fails |
| ParserCursor.ParseNumberAt | src/parson/parson.c:837-847 | the number is what strtod read, refused when it is out of range or not a plain numeral; the pointer moves by what strtod read, which may be nothing |
| ParserCursor.ParseArrayAt | src/parson/parson.c:764-808 | the loop over elements on the shared cursor agrees with the recursive reading of the text |
| ParserCursor.ParseMemberAt | src/parson/parson.c:719-747 | one turn of the member loop: a failure at any step fails the object, otherwise the object has one more member and the rest decides |
| ParserCursor.ParseObjectAt | src/parson/parson.c:702-762 | members added in place to a growing object give the parsed object; a repeated name fails |
| ParserCursor.ParseTextAt | src/parson/parson.c:1108-1116 | json_parse_string with its optional byte order mark |
| Decimals.IsDecimalIff | src/parson/parson.c:253-266 | is_decimal lets a number of RFC 8259 section 6 through exactly when it is not a lone zero directly followed by an exponent |
| Json.PlainIff | src/parson/parson.c:253-266 | whatever strtod read, is_decimal lets a text that is taken for a number through exactly when, behind an optional minus, a zero that comes first is last or stands before the point, and no x is in it |
| RoundTrip.ParseRfc | src/parson/parson.c:1108-1116 | json_parse_string on every JSON text of RFC 8259, with anything behind it that can follow a value: accepted exactly when no number is a lone zero directly followed by an exponent or out of range, names are distinct in each object and nothing is nested too deeply; the result is the value the text stands for |
| RoundTrip.ZeroExponentRefused | src/parson/parson.c:253-266 | a number of RFC 8259 that is refused |
| RoundTrip.ParseWritten | src/parson/parson.c:677-856 | a value with any whitespace and any escapes, whose numerals are any texts strtod reads whole, is accepted exactly when its numerals are plain and in range, names are distinct in each object and nothing is nested too deeply; the cursor is left on what follows |
| RoundTrip.ParseDocument | src/parson/parson.c:1108-1116 | the same for json_parse_string, with whitespace in front, with or without a byte order mark |
| Language.AcceptedIsDocument | src/parson/parson.c:677-856 | whatever is accepted, unless nothing is read of it, is whitespace and a document of the grammar that stands for the value, numerals being the plain ones that strtod reads |
| Language.LanguageExact | src/parson/parson.c:677-856 | up to a place where a value can end, the parser accepts a text with a value exactly when the text is such a document for that value, names are distinct in each object and nothing is nested too deeply |
| Language.NumeralExact | src/parson/parson.c:837-847 | a text that strtod reads whole is accepted as a document exactly when it is a plain numeral and in range, and then as the number strtod makes of it: 012 and 0x1 are refused |
| Language.NestingLimit | src/parson/parson.c:677-680 | 2049 nested arrays are accepted, one more is refused |
| Language.LoneSign | src/parson/parson.c:837-847 | a text accepted otherwise: a minus sign behind which strtod finds no number, of which nothing is read |
| RoundTrip.Layout | src/parson/parson.c:869-1003 | the compact text of every value is a text of the grammar without whitespace; the pretty text has each entry and each closing bracket on a line of its own, indented by four blanks a level, and a blank behind each colon |
| RoundTrip.DocOfMeans | src/parson/parson.c:869-1003 | the serialised text of a well-formed value stands for that value |
| RoundTrip.ParseBack | src/parson/parson.c:677-1064 | parsing the compact or pretty text of a well-formed value, followed by anything that can follow a value, returns the value and leaves exactly what followed |
| RoundTrip.ParseSerialized | src/parson/parson.c:1108-1116 | json_parse_string undoes json_serialize_to_string and its pretty form, member order included |
| RoundTrip.ReparseParsed | src/parson/parson.c:677-1064 | for every accepted text, serialising its tree and parsing again gives the same tree, when the numbers of that tree read back as they are printed |
| RoundTrip.ReparseAll | src/parson/parson.c:677-1064 | the same for every accepted text, under a libc that prints every number it reads so that it reads back |
| Numbers.ReparseIntegers | src/parson/parson.c:677-1064 | the same for every accepted text whose numbers are integers up to 2^53, with nothing assumed of single numbers |
| Utf8Trees.ParsedKeepsUtf8 | src/parson/parson.c:677-808 | every name and string of a tree parsed from valid UTF-8 is valid UTF-8, and so is the text left over |
| Utf8Trees.ParsedTextKeepsUtf8 | src/parson/parson.c:1108-1116 | the same for json_parse_string and its byte order mark |
| Numbers.IntegerPrintsBack | src/parson/parson.c:837-847 | an integer up to 2^53 passes is_decimal as printed and is read back with its sign |
| Numbers.DigitsRoundTrip | src/parson/parson.c:981-994 | the decimal digits of a number have that value |
| Numbers.ParseSerializedIntegers | src/parson/parson.c:677-1064 | the round trip for every tree of integers up to 2^53, with nothing assumed of single numbers |
| Numbers.IntegerLibc | src/parson/parson.c:45-46 | a libc exists that treats integers as assumed, reads every number of RFC 8259 whole and is stable |
| SerializerBuffer.AppendIndent | src/parson/parson.c:1066-1073 | counts the indentation, and writes it when there is a buffer |
| SerializerBuffer.AppendQuoted | src/parson/parson.c:1005-1064 | counts the literal's bytes, and stores them and a terminator when there is a buffer |
| SerializerBuffer.SerializeToBufferR | src/parson/parson.c:869-1003 | both passes return the length of the serialised text; the writing pass stores that text and a terminator and changes nothing else |
| SerializerBuffer.SerializationSize | src/parson/parson.c:1480-1484 | the sizing pass gives one more than the number of content bytes |
| SerializerBuffer.SerializeToBuffer | src/parson/parson.c:1486-1497 | fails without writing exactly when text and terminator do not fit; otherwise stores them inside the size given |
| SerializerBuffer.SerializeToString | src/parson/parson.c:1522-1540 | the buffer of the predicted size is filled exactly, ending in NUL |
| ObjectMap.LookupIsMap | src/parson/parson.c:412-424 | the linear search answers as the finite map the members stand for |
| ObjectMap.AddRefines | src/parson/parson.c:357-380 | adding succeeds exactly for a new name, keeps names distinct and extends the map by that pair |
| ObjectMap.SetRefines | src/parson/parson.c:1741-1760 | setting overwrites or adds that name in the map, and keeps names distinct |
| ObjectMap.RemoveRefines | src/parson/parson.c:426-447 | swap-with-last removal succeeds exactly for a name present and takes only it out of the map |
| ObjectMap.Places | src/parson/parson.c:357-447 | a new member goes last, a set value replaces the one of its name in its place, and the last member takes the place of a removed one |
| ObjectMap.CountIsSize | src/parson/parson.c:1191-1193 | the count is the size of the map |
| ObjectMap.RunRefines | src/parson/parson.c:357-447 | after every sequence of add, set, remove, resize and clear, names are distinct and the members stand for the map the same sequence builds |
| ObjectMap.RunOps | src/parson/parson.c:357-447 | the same of the arrays: after every sequence of calls on an object they hold that map within the capacity, and every status was the one the map calls for |
| ObjectMap.JsonObject.Find | src/parson/parson.c:412-424 | the search loop stops at the first member with the name |
| ObjectMap.JsonObject.Resize | src/parson/parson.c:382-410 | both arrays grow or shrink without losing a member; capacity zero is refused without a change |
| ObjectMap.JsonObject.AddN | src/parson/parson.c:357-380 | the arrays grow to twice the capacity, at least 16, when they are full, and the members become those of the specification; count stays within capacity |
| ObjectMap.JsonObject.SetValue | src/parson/parson.c:1741-1760 | overwrites in place or adds; a value with a parent is refused without a change |
| ObjectMap.JsonObject.RemoveInternal | src/parson/parson.c:426-447 | the last pair moves into the gap; a missing name changes nothing |
| ObjectMap.JsonObject.Clear | src/parson/parson.c:1876-1887 | no members are left, the capacity stays |
| DotPath.SplitIff | src/parson/parson.c:1162-1169 | the segments of a name are the one list of texts without dots that gives the name when joined with dots |
| DotPath.DotGetIsPath | src/parson/parson.c:1162-1169 | the recursion on the name is a walk along its dot-separated segments |
| DotPath.DotSetFailsIff | src/parson/parson.c:1778-1818 | dotset fails exactly when the value has a parent or a proper prefix of the path holds something other than an object, and then nothing in the tree has changed |
| DotPath.DotSetGet | src/parson/parson.c:1778-1818 | after a successful dotset: dotget at the name gives the value, set in its object as by json_object_set_value, below it the value's own members, at every proper prefix an object that leads to it, and diverging names keep their answers |
| DotPath.DotRemoveGet | src/parson/parson.c:449-462 | dotremove succeeds exactly when dotget finds something; then it is gone from its object, as by json_object_remove, every proper prefix still holds an object, and diverging names keep their answers; otherwise nothing has changed |
| DotPath.DotKeepsWellFormed | src/parson/parson.c:1778-1818 | dotset and dotremove keep names distinct in every object of the tree |
| Compare.ObjectsEqual | src/parson/parson.c:1977-1992 | for objects with distinct names, equality is having the same names with equal values: member order is ignored |
| Verdicts.EqualsIffCanonical | src/parson/parson.c:1949-2011 | over numbers that are the same or the tolerance apart, values are equal exactly when they are the same up to the order of members and the sign of zero |
| Compare.EpsilonIsNearest | src/parson/parson.c:2002-2003 | the tolerance is a double, and none is nearer to 0.000001 |
| Compare.EqualsReflexiveSymmetric | src/parson/parson.c:1949-2011 | equality is reflexive, and symmetric although it searches in one direction only |
| Compare.WithinTriangle | src/parson/parson.c:1949-2011 | along a chain of equalities the tolerances add up |
| Compare.NotTransitive | src/parson/parson.c:2002-2003 | three doubles that show equality is not transitive |
| Compare.TransitiveIff | src/parson/parson.c:1949-2011 | over trees with numbers from a given set equality is transitive exactly when nearness is on that set |
| Compare.IntegersNearTransitive | src/parson/parson.c:2002-2003 | nearness of integers is transitive |
| Compare.EqualsEquivalence | src/parson/parson.c:1949-2011 | over numbers that are the same or the tolerance apart equality is an equivalence |
| Compare.MultiplesEquivalence | src/parson/parson.c:1949-2011 | equality is an equivalence on trees of multiples of any step from the tolerance on |
| Compare.IntegersEquivalence | src/parson/parson.c:1949-2011 | equality is an equivalence on trees of integers |
| Compare.DeepCopyIsCopy | src/parson/parson.c:1401-1478 | a deep copy succeeds exactly for well-formed values and is the same tree |
| Compare.DeepCopyEquals | src/parson/parson.c:1401-1478 | a deep copy equals its original |
| Compare.DeepCopyValue | src/parson/parson.c:1401-1478 | the copying loops, entry by entry, make that copy |
| Compare.CountNeverMatters | src/parson/parson.c:1921-1929 | for a schema with distinct names the early comparison of field counts never changes the verdict |
| Verdicts.RefusedIff | src/parson/parson.c:1889-1947 | a value is refused exactly when at some place, followed by names and array indices, it clashes with the schema there, of an array its first item: it has another type, null in the schema matching any, or lacks a name |
| Compare.ValidateExtended | src/parson/parson.c:1889-1947 | adding fields to any objects anywhere inside an accepted value keeps it accepted |
| Comments.FindIsFirst | src/parson/parson.c:322-325 | strstr gives the first place where the end token occurs |
| Comments.FirstComment | src/parson/parson.c:301-334 | the first start token behind an even number of unescaped quotes is blanked with everything up to the first end token behind it, and what follows is treated as a text of its own |
| Comments.FirstUnclosed | src/parson/parson.c:322-325 | without an end token only that start token is blanked |
| Comments.RemoveCommentsInPlace | src/parson/parson.c:301-334 | the loop over the buffer leaves the specified text, and the terminator and what follows it alone |
| Comments.RemoveCommentsKeeps | src/parson/parson.c:301-334 | the length stays, bytes change only to spaces, and none behind an odd number of unescaped quotes changes |
| Comments.UnchangedIff | src/parson/parson.c:301-334 | a text is left as it is exactly when no comment starts in it behind an even number of unescaped quotes |
| Comments.IdempotentIff | src/parson/parson.c:301-334 | a second pass changes nothing exactly when no comment starts behind one that is never closed |
| Comments.NotIdempotent | src/parson/parson.c:318-330 | a text on which a second pass changes something |
| Commented.ParseWithCommentsAt | src/parson/parson.c:1118-1131 | the copy is stripped in place of both kinds of comments and parsed |
| Commented.LiteralStrip | src/parson/parson.c:308-317 | nothing in a string literal is taken for a comment |
| Commented.ClosedStrip | src/parson/parson.c:301-334 | a text in which every comment is closed is stripped on its own, whatever follows it |
| Commented.BlockGap | src/parson/parson.c:1118-1131 | a block comment up to its first end token is left out as whitespace |
| Commented.LineGapIff | src/parson/parson.c:1118-1131 | exactly which line comments are left out as whitespace, given that the block pass runs first |
| Commented.GapConcat | src/parson/parson.c:1118-1131 | whitespace and such comments can follow one another |
| Commented.CommentedRead | src/parson/parson.c:1118-1131 | a text of the grammar with any such comments between its tokens is read as the value it stands for, exactly when the parser accepts that value |
| Commented.CommentedRfc | src/parson/parson.c:1118-1131 | every JSON text of RFC 8259 with such comments between its tokens is accepted exactly when ParseRfc says so of the value it stands for, and read as that value |
| Commented.StarLineRefused | src/parson/parson.c:1118-1131 | a text that starts with a line comment whose text starts with an asterisk is refused |
| Commented.SerializedHasNoComments | src/parson/parson.c:301-334 | both passes leave serialised text as it is, whatever its strings contain |
| Commented.CommentedRoundTrip | src/parson/parson.c:1118-1131 | json_parse_string_with_comments undoes serialising too |
| Commented.MarkRefused | src/parson/parson.c:1118-1131 | it refuses a text with a byte order mark |
| Commented.AgreeIff | src/parson/parson.c:1108-1131 | on an accepted text without comments the two entry points agree exactly when it has no byte order mark |
| CsvReading.RowExact | src/utils/csv.c:96-200 | every text, well written or not, is read like its characters without carriage returns: fields end at a delimiter or line break outside quotes; of each run of quotes every second one is left out, and one more when the field ends behind it; an odd run leaves quoting, an even one enters it |
| Csv.QuotedRun | src/utils/csv.c:154-171 | between quotes doubled quotes are undone and carriage returns dropped, up to any text that follows |
| Csv.RowRead | src/utils/csv.c:96-200 | a row written by RFC 4180 section 2 is returned field by field, and the rest of the text is left |
| Csv.DocumentRead | src/utils/csv.c:96-200 | repeated calls on a written document return its rows in order, less carriage returns, and then NULL |
| Csv.DocumentReadIff | src/utils/csv.c:154-156 | they return the fields exactly as written if and only if no field holds a carriage return |
| Csv.CarriageReturnLost | src/utils/csv.c:154-156 | a quoted field with a carriage return that comes back without it |
| Csv.LastRowRead | src/utils/csv.c:146-180 | a last line without its line break (rule 2) is read as the last row, unless nothing at all is written for it |
| Csv.MisplacedIff | src/utils/csv.c:157-173 | a field's terminator has no place exactly when the text ends, carriage returns aside, behind the opening quote of a field that is not the first of its row |
| Csv.QuoteAtEnd | src/utils/csv.c:172-173 | a text on which it has none |
| Csv.CsvParser.GetRow | src/utils/csv.c:96-200 | the row, the cursor and the error message of one call; the cursor stays inside the text exactly when a line break ended the row |
| Csv.RowBuffers.TrackQuotes | src/utils/csv.c:157-171 | quote parity, the last-quote flag and the stepping write index move as in the state machine |
| Csv.RowBuffers.StoreChar | src/utils/csv.c:190-197 | one character is stored inside the buffer, which is doubled when only its last byte is left |
| Csv.RowBuffers.EndField | src/utils/csv.c:172-180 | the terminator drops a closing quote, and the field becomes a C string of its own |
| Csv.RowBuffers.NextField | src/utils/csv.c:181-189 | a full block of 64 fields grows by another, and the next field starts empty |
| Csv.RowBuffers.Consume | src/utils/csv.c:137-199 | one turn of the loop is one step of the state machine, inside both buffers |
| Csv.ReadDocument | src/utils/csv.c:96-200 | a caller that asks until NULL gets every row of a written document from the buffered loop |
| LinkedList.List.Add | src/utils/list.c:75-98 | the new value is last in both chains; NULL is refused without a change |
| LinkedList.List.Get | src/utils/list.c:100-137 | indexed access through the chain agrees with the sequence, NULL outside it |
| LinkedList.List.RemoveElem | src/utils/list.c:150-171 | unlinking takes exactly that position out of the sequence, in both directions |
| LinkedList.List.Enum | src/utils/list.c:173-181 | the callback sees the values in sequence order |
| LinkedList.RunOps | src/utils/list.c:75-171 | after every run of adds and in-range removals both chains, head, tail and len stand for the same sequence |
| Pixels.Grid.constructor | src/pixel.c:17-39 | each column pointer is its column's offset into one block |
| Pixels.CellsDisjoint | src/pixel.c:17-39 | the flat layout gives every pair of coordinates its own cell |
| Pixels.Grid.Set | src/pixel.c:17-39 | writing through the column pointers changes one cell and no other |
| Pixels.FoldFindsLast | src/pixel.c:56-63 | the callback with its running count finds the last LED at a position |
| Pixels.GetPos | src/pixel.c:65-69 | the last LED at the position, or -1 |
| Pixels.ReadGridToList | src/pixel.c:5-15 | every LED that its position leads to gets the colour of the grid cell in that column and row; every other entry of the list stays |
| Pixels.DistinctAllRead | src/pixel.c:5-15 | with distinct positions every LED inside the grid is one its position leads to |
| Strips.SlotsDisjoint | src/opc/opc_client.c:20-29 | different slots have different places in the frame |
| Strips.SlotAt | src/opc/opc_client.c:20-29 | every place below the total size is a slot |
| Strips.TotalSize | src/opc/opc_client.c:20-29 | the strips start at 0, 63, 123, 187, 231, 291, 355 and 407, and have the 471 pixels sent together |
| Strips.OrganisePixels | src/opc/opc_client.c:204-223 | slot s of channel c holds the colour of the LED last wired there |
| Strips.MovesPermutes | src/opc/opc_client.c:204-223 | moving elements to distinct places is a permutation |
| Strips.OrganisedPermutes | src/opc/opc_client.c:204-223 | with a bijective wiring the frame sent is a permutation of the frame given, each LED's colour in its slot |
| Opc.MessageIff | src/opc/opc_client.c:186-200 | the header announces its body's length exactly up to 21845 pixels |
| Opc.ReceivedIff | src/opc/opc_client.c:186-202 | the bytes for a frame are received as that one message exactly up to 21845 pixels |
| Opc.TooLong | src/opc/opc_client.c:190-193 | 21846 pixels, for which the receiver's first message is six bytes long |
| Opc.MessageDecodes | src/opc/opc_client.c:186-202 | a receiver that reads channel, command and then red, green and blue of each pixel gets back the channel, command 0 and the pixels |
| Opc.ReceiveConcat | src/opc/opc_client.c:186-202 | a receiver takes whole messages followed by a truncated one apart again |
| Opc.Client.NewSink | src/opc/opc_client.c:56-78 | a new sink is counted only when its host resolves and fewer than 64 exist, and starts without a connection |
| Opc.Client.Connect | src/opc/opc_client.c:82-135 | the open connection is kept, or a new one is opened, or nothing changes; other sinks keep theirs |
| Opc.Client.Close | src/opc/opc_client.c:138-150 | the sink has no connection afterwards; other sinks keep theirs |
| Opc.Client.Send | src/opc/opc_client.c:155-184 | however send() splits the data: as many bytes go out on one connection as the calls take before the first that fails, and then the connection is closed; or none |
| Opc.AcceptedIs | src/opc/opc_client.c:173-182 | the bytes of a send are those of the calls before the first that fails, sends nothing or is missing, or all |
| Opc.Client.PutPixels | src/opc/opc_client.c:186-202 | header and body go out as one message, which decodes to the channel and the pixels, on one connection, or the part that is taken, and the connection is closed, or nothing does |
| Opc.PartArrives | src/opc/opc_client.c:155-202 | what goes out of a message behind whole ones is the message delivered, or left over |
| Opc.PutContinues | src/opc/opc_client.c:186-202 | a put adds its bytes to one connection of its sink on which nothing has failed, and to no other |
| Opc.ReceivedExactly | src/opc/opc_client.c:186-202 | the receiver of a connection gets exactly the messages whose put succeeded on it; what is left over is what went out of the put that failed on it |
| Opc.Run | src/opc/opc_client.c:56-202 | over every run of new sinks, puts and closes with arbitrary failures, the bytes of each connection are the messages put on it in order, each whole but the last one before a failure; with at most 21845 pixels a message its receiver gets exactly the messages whose put succeeded, decodes them to their channels and pixels, and is left with a proper part of the failed one, or nothing while the connection is open; a put that nothing fails succeeds exactly when its sink exists |
| Opc.PutPixelList | src/opc/opc_client.c:204-229 | every wired slot of the frame holds its LED's colour, with a bijective wiring the frame is a permutation; it goes out as one message, which decodes to channel 0 and that frame, with the failure modes of a put; the result is 0 |

## Left out

- Files, error output, timeouts, signals, DNS and socket options: only their outcomes are modelled.
- Out-of-memory branches, and overflow of `int` and `size_t` sizes.
- Floating-point printing and parsing: for numbers other than integers up to 2^53 the round trip needs `PrintsBack`.
- RoundTrip.ReparseParsed: needs `NumbersPrintBack` of the parsed tree, because whether a number that is not an integer reads back as it is printed is libc's doing, and C does not promise it of subnormals.
- RoundTrip.ParseRfc: does not say which double a number is read as, because `strtod` is libc's.
- Compare.Near: takes the difference of two numbers exactly, because doubles are modelled as reals.
- Objects nested in objects are not aliased: `ObjectMap.JsonObject` is one object with its arrays, while dotted paths,
  deep copy, equality and validation work on value trees. Parent pointers are the `attached` flag of the calls that look at them.
- The storage of a JSON array is a sequence; its growth is that of an object with one array instead of two.
- Freed memory: `json_value_free`, `v_free`, `grid_free` and `csv_parser_destroy` have no counterpart.
- Csv.CsvParser.GetRow: does not cover a call after the cursor has passed the terminator, or a text that ends behind the opening quote of a later field, because the code then reads or writes outside its memory; nor file mode.
- ObjectMap.RunOps: does not cover a resize below the count, because the code then copies more than it has allocated.
- Strips.OrganisePixels: does not cover wiring outside the strip grid, because the code then writes outside its block.
- Pixels.Grid.constructor: does not cover more than 255 columns, for which the code's counter wraps and its loop does not end.
- LinkedList.List.Remove: does not cover an index outside the list, which the code dereferences as NULL.
- A pixel's geolocation, layout files, the Mercator projection, effects, games and the control servers.
- The typed wrappers of the JSON interface (set_string, dotget_number and so on): each calls one modelled routine.
