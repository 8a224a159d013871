# AIM in Dafny

A model, with proofs, of the parts of the Automotive Integrated Map (AIM) that decide what the in-memory map of
nearby vehicles holds and how it is read and written:

- **json11** (`json11/json11.cpp`): the parser object with its cursor and sticky error, both parsing strategies,
  the serializer that appends to the caller's string, and the two comparison operators.
- **BIT STRING and INTEGER codecs** (`decoder-module/asn1`): unaligned PER for BIT STRING under fixed, ranged,
  extensible and absent size constraints with fragmented lengths (sections 16 and 11.9 of X.691), the order that
  ignores trailing zeros (section 22.7 of X.680), and OER for INTEGER (sections 10 and 8.6 of X.696).
- **Path history** (`src/PHpoints.cpp`): the ring of points with distance-driven eviction and its iterator.
- **Vehicle database** (`src/LDMmap.cpp`): the two-level index, its counter, the histories its entries own,
  selection by range and deletion by age.
- **Message intake** (`src/SocketClient.cpp`): the freshness check on GeoNetworking timestamps and the exterior
  lights carried over between messages.

Code that changes state step by step is modelled by classes and methods with loops (`JsonParser`, `Output`,
`BitOut`, `BitIn`, `PHpoints`, `PHDataIter`, `LDMMap`). Each method is proved to compute what a specification
function says of the old state, and the main results are lemmas about those functions.

| file | content |
|---|---|
| `JsonValue`, `JsonOrder`, `JsonOrderMeaning` | values, `operator==`, `operator<`, the order they form, and what it says type by type |
| `JsonText`, `JsonPrinter` | decimal, hexadecimal and UTF-8 text; the serializer |
| `JsonGrammar`, `JsonParser` | what the parser accepts, as functions of the unread input; the parser object |
| `JsonEscapes`, `JsonNumbers`, `JsonLayout` | the meaning of string literals, the number grammar, layout between tokens |
| `JsonSyntax`, `JsonCovers`, `JsonAccepts` | the grammar of RFC 8259 as syntax trees; the parser accepts exactly its layouts |
| `JsonRoundTrip`, `JsonParsed`, `JsonMulti` | parsing undoes printing; what parsing can return; stop positions |
| `JsonTables`, `JsonErrors` | digits, escapes, surrogates, words, limits and separators as literals; which error is reported for which text |
| `BitStream`, `BitString`, `BitStringPer`, `BitStringForms` | bit streams and lengths; the BIT STRING order; its PER codec; what its encodings look like |
| `IntegerOer`, `IntegerForms` | the INTEGER OER codec; what its encodings look like |
| `Vehicle`, `PathHistory`, `PathHistoryObject` | reports; the ring as a value; the history object and its iterator |
| `VehicleDatabase`, `DatabaseRuns` | split keys, sweeps and ages; runs of operations on a flat map with its counter |
| `LdmMap`, `MessageIntake` | the database object; the intake of CAMs |
| `Common` | optional values, regrouping of concatenations |

Doubles are mathematical reals, with NaN and the infinities added in the JSON values. What json11 takes from the C
library (`strtod`, `%.17g`, the conversion of integers) is a record of functions whose promises are the predicate
`JsonNumbers.Conforms`, shown consistent by `JsonParsed.PromisesCanBeKept`. The haversine distance is a function
parameter. Clock values are parameters, and the order in which an `unordered_map` is traversed is left open.

## Where the code falls short

These are results, each proved together with the condition under which the code does what it is meant to.

- A history for `ceil(limit / min)` points can write onto a full ring in its first round, because the first point
  has no distance of its own (`FullWriteIff`; three reports that do it: `FirstRoundOverflows`). Such a write loses the
  order of the ring, as `m_oldest_idx` stays behind (`InsertRefinesQueue`). Once a point has been dropped it cannot
  happen any more, whatever follows (`CapacitySuffices`).
- After the ring has wrapped to index 0, the look-back reaches the newest point only if the ring is full
  (`LookBackIsNewest`). Recorded distances are the true ones exactly while no look-back misses
  (`LinkedIffSeenThroughout`); four reports after which two neighbours recorded five apart are at the same place:
  `LookBackMisses`.
- `clear` keeps the stored distance, so a cleared history is in order only if that was 0 (`ClearedIsOrderedIff`,
  `ClearingKeepsDistance`).
- `remove` takes the vehicle away only if the upper half of its ID is 0; the counter goes down regardless, so it is
  right exactly while every removal that finds its vehicle has upper key 0 (`LDMMap.Remove`, `CountedIffRemoves`). Two
  removals of one vehicle can make the database refuse every report (`RemovingTwiceFills`).
- A record time ahead of the clock makes the unsigned age wrap round (`AgeingIsExactIff`, `AheadIsDeleted`).
- An old message is dropped only when a log file is configured (`DropsOlder`, `GoesBackIff`).
- A stored message without GN timestamp makes every later message with one look old (`NoStampDropsIff`,
  `NoStampBlocks`).

## Model

| member | source | states |
|---|---|---|
| JsonOrder.Trichotomy | json11/json11.cpp:318-334 | for NaN-free values of any nesting exactly one of a < b, a == b, b < a holds, across number representations |
| JsonOrder.OrderIsTransitive | json11/json11.cpp:168-201 | `<` is transitive and respects `==`, which is an equivalence |
| JsonOrder.OperatorsAgree | json11/json11.cpp:168-201 | both operators are the signs of one three-way comparison by rank, double value, bytes, items, members |
| JsonOrder.ReflexiveIffNaNFree | json11/json11.cpp:318-334 | comparison by content makes a value equal to itself iff it holds no NaN, so the identity shortcut is invisible without NaN |
| JsonOrderMeaning.TypesInOrder | json11/json11.h:82-84 | null before numbers before Booleans before strings before arrays before objects; different types are never equal; strings are equal by bytes |
| JsonOrderMeaning.NumbersInOrder | json11/json11.cpp:182-208 | numbers of any representation compare as doubles, infinities at the ends, NaN with nothing |
| JsonOrderMeaning.BytesInOrder | json11/json11.cpp:168-173 | a string is less iff at the first difference it ends or has the smaller byte |
| JsonOrderMeaning.ArraysInOrder | json11/json11.cpp:168-173 | an array is less iff there is a place, all before it tied, where it ends or has the lesser element |
| JsonOrderMeaning.ObjectsInOrder | json11/json11.cpp:168-173 | the same for the members of objects, each compared by key and then by value |
| JsonOrderMeaning.ArraysEqual | json11/json11.cpp:168-173 | arrays are equal iff they have the same length and equal elements in each place |
| JsonOrderMeaning.ObjectsEqual | json11/json11.cpp:168-173 | objects are equal iff they have the same keys with equal values |
| JsonText.Utf8RoundTrip | json11/json11.cpp:471-490 | the encoder is inverted by a decoder laid out as in section 3 of RFC 3629, with the shortest length and marked continuation bytes |
| JsonText.SignedDecimalDenotes | json11/json11.cpp:67-77 | printed integers are number texts that denote the integer |
| JsonPrinter.DumpByte | json11/json11.cpp:85-115 | one turn of the string loop appends the escape of the head and advances by its length, three bytes for the line separators |
| JsonPrinter.DumpString | json11/json11.cpp:83-118 | appends the quoted, escaped string to what the caller had |
| JsonPrinter.DumpItem | json11/json11.cpp:123-128 | one turn of the array loop: a comma unless first, then the element |
| JsonPrinter.DumpArray | json11/json11.cpp:120-130 | appends the bracketed, comma-separated elements |
| JsonPrinter.DumpEntry | json11/json11.cpp:135-142 | one turn of the object loop: a comma unless first, the key, a colon, the value |
| JsonPrinter.DumpObject | json11/json11.cpp:132-144 | appends the braced members in key order |
| JsonPrinter.DumpJson | json11/json11.cpp:53-81 | appends the text of a value of any type; infinities and NaN as null |
| JsonTables.PrintedEscapes | json11/json11.cpp:85-115 | the two-byte escapes, `\u00xx` with lower-case digits for the other controls, `\u2028` and `\u2029`, every other byte as it is |
| JsonTables.PrintedNumbers | json11/json11.cpp:57-77 | an int and a uint64 are printed as the number text without leading zero that denotes them, a finite double by `%.17g` |
| JsonTables.PrintedLists | json11/json11.cpp:120-130 | brackets, and a comma with a blank between elements |
| JsonTables.PrintedObjects | json11/json11.cpp:132-144 | braces, key, colon with a blank, value, and a comma with a blank between members |
| JsonTables.PrintedWords | json11/json11.cpp:53-81 | null, true, false; NaN and both infinities as null |
| JsonParser.JsonParser.Fail | json11/json11.cpp:377-387 | keeps the first message, does not move the cursor |
| JsonParser.JsonParser.ConsumeWhitespace | json11/json11.cpp:393-396 | the cursor skips exactly the leading blanks and stays in the text |
| JsonParser.JsonParser.ConsumeComment | json11/json11.cpp:402-434 | skips one comment of either kind, or fails with the message for its defect, without leaving the text |
| JsonParser.JsonParser.ConsumeGarbage | json11/json11.cpp:440-451 | skips all layout the strategy allows, or keeps or sets the error |
| JsonParser.JsonParser.GetNextToken | json11/json11.cpp:458-465 | returns the first byte behind layout, or NUL with an error |
| JsonParser.JsonParser.ParseUnicodeEscape | json11/json11.cpp:527-562 | one `\u` escape: pairs with a pending high surrogate or becomes pending itself |
| JsonParser.JsonParser.ParseEscape | json11/json11.cpp:521-582 | one escape sequence, with what it does to the pending code point |
| JsonParser.JsonParser.ParseStringBody | json11/json11.cpp:496-583 | the string loop computes what the grammar says of the literal, or its first error |
| JsonParser.JsonParser.ConsumeNumber | json11/json11.cpp:590-635 | the cursor stops at the end of the number; tells short integers from the rest |
| JsonParser.JsonParser.ParseNumberText | json11/json11.cpp:589-638 | a short integer becomes an int, any other number goes through `strtod`; leading zeros and missing digits are errors |
| JsonParser.JsonParser.Expect | json11/json11.cpp:645-654 | the word from the byte just read on, or an error that quotes what stands there |
| JsonParser.JsonParser.ParseJson | json11/json11.cpp:660-744 | agrees with the recursive grammar at every depth, keeps the first error once failed, and never leaves the text |
| JsonParser.JsonParser.ParseAtToken | json11/json11.cpp:669-686 | dispatch on the token just read |
| JsonParser.JsonParser.ParseArray | json11/json11.cpp:719-741 | the array loop computes the grammar's list |
| JsonParser.JsonParser.ParseItem | json11/json11.cpp:725-739 | one turn of the array loop: what was due has become what is still due, or is done, or certain to fail |
| JsonParser.JsonParser.ParseSeparator | json11/json11.cpp:708-714 | closing token, or a comma and the token after it |
| JsonParser.JsonParser.ParseObject | json11/json11.cpp:686-717 | the object loop computes the grammar's map |
| JsonParser.JsonParser.ParseMember | json11/json11.cpp:692-715 | one turn of the object loop |
| JsonParser.JsonParser.ParseKeyAndColon | json11/json11.cpp:693-702 | a key and its colon, or the error for what stands instead |
| JsonParser.Parse | json11/json11.cpp:748-760 | the value of the whole text, or null and the first error; trailing text is an error |
| JsonParser.ParseMulti | json11/json11.cpp:763-782 | the list, the stop position and the error that the grammar of concatenated values gives |
| JsonMulti.StopMarksParsedPrefix | json11/json11.cpp:770-780 | the text before the stop position parses without failure to its end and to the values before the failing one, each at least a byte long |
| JsonMulti.CutValue | json11/json11.cpp:660-744 | bytes beyond the part a value was read from have no influence on it |
| JsonEscapes.StringsDecode | json11/json11.cpp:496-583 | a literal is accepted iff it is raw bytes, short escapes and `\u` escapes up to a quote; it means the raw bytes and the UTF-8 of the code points, surrogates paired greedily, lone ones in three bytes |
| JsonEscapes.DecodePieces | json11/json11.cpp:548-565 | the same for the loop entered with a pending code point |
| JsonEscapes.PrintedStringParses | json11/json11.cpp:83-118 | every byte string is printed as a literal that parses back to it |
| JsonTables.HexDigits | json11/json11.cpp:537-541 | exactly the sixteen digits in either case are hexadecimal, and the digit in place d of 0..9, a..f or A..F has value d |
| JsonTables.Hex4Spells | json11/json11.cpp:542-542 | every spelling of a number below 65536 in four hexadecimal digits, upper and lower case mixed, has that number as value |
| JsonTables.ShortEscapes | json11/json11.cpp:567-581 | the eight short escapes and the byte each stands for, as literals, and no others |
| JsonTables.PairsDecode | json11/json11.cpp:548-556 | the two escapes of the surrogate pair of a code point beyond the basic plane are read as its UTF-8 |
| JsonTables.UnitDecodes | json11/json11.cpp:542-565 | any single `\u` escape is read as the UTF-8 of its code point, a lone surrogate included |
| JsonErrors.StringsFail | json11/json11.cpp:496-583 | a literal fails with a message iff it starts with valid pieces and goes on with the fault the message names: end of text, raw control byte, bad `\u` digits, unknown escape |
| JsonErrors.NumbersFail | json11/json11.cpp:594-606 | a digit behind a leading zero, and no digit where a number starts, are named in the error |
| JsonErrors.TailsFail | json11/json11.cpp:614-632 | a point without digit behind a whole number, and an exponent of either letter and any sign without digit behind whole number and fraction, give their errors |
| JsonErrors.WordsFail | json11/json11.cpp:645-681 | a word that starts right and goes wrong is quoted with as many bytes as it has |
| JsonErrors.OthersFail | json11/json11.cpp:669-743 | a byte that is no digit, minus, quote, opening bracket or brace, t, f or n starts no value, and is named in the error |
| JsonErrors.CommentsFail | json11/json11.cpp:402-434 | a slash alone, a slash before another byte, and a block comment never closed, each with its error |
| JsonErrors.StructureFails | json11/json11.cpp:692-757 | what is missing between elements, before a key, after a key, at the end, and what stands behind a value is named in the error |
| JsonErrors.UnreadIsListed | json11/json11.cpp:770-780 | a failing text adds one element to the list, an empty string behind an opening quote and null otherwise, and leaves the stop position before it |
| JsonTables.Words | json11/json11.cpp:674-681 | the three words parse to null, true and false |
| JsonTables.Numbers | json11/json11.cpp:607-637 | a number text of at most nine bytes without point and exponent is the int it denotes, every other one what `strtod` makes of it |
| JsonTables.DepthLimit | json11/json11.cpp:660-663 | so many brackets inside each other parse iff there are at most 201 |
| JsonNumbers.ScanNumber | json11/json11.cpp:590-635 | every number text of section 6 of RFC 8259 is scanned to its end |
| JsonNumbers.ScannedIsNumber | json11/json11.cpp:590-635 | whatever is scanned without error is such a text |
| JsonNumbers.IntegerRereads | json11/json11.cpp:608-637 | a printed int or uint64 is read back as a number that compares equal |
| JsonNumbers.DoubleRereads | json11/json11.cpp:57-65 | so is every finite double |
| JsonLayout.FillSkipped | json11/json11.cpp:402-451 | any sequence of blanks and comments the strategy allows is skipped entirely |
| JsonSyntax.GrammarParses | json11/json11.cpp:748-760 | every layout of the tokens of a syntax tree of RFC 8259 parses to the end, to its meaning, unless it nests more than 200 deep |
| JsonCovers.GarbageIsFill | json11/json11.cpp:393-451 | whatever the parser skips is a sequence of blanks and comments the strategy allows, except that a line comment may run to the end of the text |
| JsonAccepts.AcceptsIffGrammar | json11/json11.cpp:660-760 | a text is accepted with a value iff it is a layout of the tokens of a syntax tree of section 2 of RFC 8259, with any number texts, any string pieces and any members, at most 200 levels deep, that means the value |
| JsonRoundTrip.LayoutParses | json11/json11.cpp:393-465 | any layout before, between and after the tokens of a printed value parses to the same result, equal to the value iff it holds no infinity or NaN; it fails iff the nesting exceeds the limit |
| JsonRoundTrip.ParseUndoesPrint | json11/json11.cpp:748-760 | for every value, parsing its printed text gives an equal value iff it nests at most 200 deep and all doubles are finite; beyond 200 it fails with the depth error |
| JsonSyntax.ParseLayout | json11/json11.cpp:660-744 | any layout of the tokens of a syntax tree inside a text, at any depth and followed by more tokens, is read to the meaning of the tree or to the depth error |
| JsonRoundTrip.ReparseEquals | json11/json11.cpp:168-201 | the reparsed value equals the original iff all doubles in it are finite |
| JsonParsed.InsertIsUpdate | json11/json11.cpp:704-704 | storing a member keeps keys ascending and updates the map at that key only: the last of repeated keys wins |
| JsonParsed.CollectKeepsLast | json11/json11.cpp:686-717 | an object with repeated keys means the map from its keys to the last value written under each |
| JsonParsed.ValueFits | json11/json11.cpp:660-744 | every parsed value has ascending keys, real doubles, and fits below its depth within the limit |
| JsonParsed.ParsedValueReprints | json11/json11.cpp:748-760 | whatever text a value came from, printing it gives a text that parses under either strategy, to an equal value iff no number overflowed |
| BitStream.UnpackPack | decoder-module/asn1/src/asn_bit_data.c:148-186 | bits packed into bytes and unpacked are the bits and zero padding |
| BitStream.PackAppend | decoder-module/asn1/src/asn_bit_data.c:148-186 | whole bytes pack independently of what follows |
| BitStream.BitOut.PutFewBits | decoder-module/asn1/src/asn_bit_data.c:192-277 | appends the low bits of a value; fewer than 32 |
| BitStream.BitOut.PutManyBits | decoder-module/asn1/src/asn_bit_data.c:284-310 | appends the leading bits of a buffer |
| BitStream.BitIn.GetFewBits | decoder-module/asn1/src/asn_bit_data.c:63-142 | a number of up to 31 bits, or -1, without moving, on a stream too short or a count out of range |
| BitStream.BitIn.GetManyBits | decoder-module/asn1/src/asn_bit_data.c:148-186 | so many bits, left-aligned in bytes |
| BitStream.PutLength | decoder-module/asn1/src/per_support.c:167-192 | one length determinant, the units that may follow and whether an end-of-message length is due |
| BitStream.GetLength | decoder-module/asn1/src/per_support.c:13-44 | a constrained or self-delimiting length, or failure, and the bits it took |
| BitStream.LengthRoundTrip | decoder-module/asn1/src/per_support.c:13-44 | every written length is read back with its fragment flag, whatever follows |
| BitStringForms.LengthForms | decoder-module/asn1/src/per_support.c:167-192 | the shortest form is written: one octet up to 127, two below 16384, else one octet for the greatest number of 16K blocks up to four; the end-of-message length is due iff these are all |
| BitStringForms.LengthsRead | decoder-module/asn1/src/per_support.c:13-44 | every self-delimiting form is read, the shortest or not; no blocks and more than four blocks are refused |
| BitString.Compactify | decoder-module/asn1/src/BIT_STRING.c:215-251 | size and unused bits point behind the last set bit of the buffer |
| BitString.LowestBitIsLowest | decoder-module/asn1/src/BIT_STRING.c:232-237 | the masks compute the number of zeros below the lowest set bit |
| BitString.Compare | decoder-module/asn1/src/BIT_STRING.c:258-301 | the sign is the lexicographic order of the bits extended by infinitely many zeros; 0 iff they differ in trailing zeros only |
| BitString.PrecedesTransitive | decoder-module/asn1/src/BIT_STRING.c:258-301 | that order is transitive |
| BitString.PrecedesTrichotomy | decoder-module/asn1/src/BIT_STRING.c:258-301 | exactly one of before, after, same |
| BitString.SameBitsIffSamePrefix | decoder-module/asn1/src/BIT_STRING.c:261-267 | same extended bits iff same bits up to the last set one |
| BitStringPer.EncodeUper | decoder-module/asn1/src/BIT_STRING.c:421-540 | appends the extension bit, the root form or the fragments; fails exactly on values not accepted |
| BitStringPer.PutRoot | decoder-module/asn1/src/BIT_STRING.c:488-517 | length field, value, and zeros up to the lower bound, in blocks of 128 |
| BitStringPer.PutFragments | decoder-module/asn1/src/BIT_STRING.c:521-537 | fragments of at most 64K bits, each after its length, closed by a zero length after whole 16K units |
| BitStringPer.DecodeUper | decoder-module/asn1/src/BIT_STRING.c:317-419 | into a fresh structure: the value and the bits read, or want-more |
| BitStringPer.GetFragments | decoder-module/asn1/src/BIT_STRING.c:387-416 | appends fragments until one announces no other, or a zero length ends the message |
| BitStringPer.FragmentsRoundTrip | decoder-module/asn1/src/BIT_STRING.c:387-416 | a value in any number of fragments is read back with its exact length |
| BitStringPer.RoundTrip | decoder-module/asn1/src/BIT_STRING.c:317-540 | for every accepted value and constraint, decoding the emitted bits followed by any others reads exactly the emitted ones and yields the value, padded up to the lower bound in the root |
| BitStringPer.ExpectedIsSame | decoder-module/asn1/src/BIT_STRING.c:488-515 | the decoded structure compares equal to the original, and its length is the value's or the lower bound |
| BitStringForms.RootForm | decoder-module/asn1/src/BIT_STRING.c:469-517 | in the root: a clear extension bit, a field with the length above the lower bound, the value, zeros up to the lower bound |
| BitStringForms.OpenForm | decoder-module/asn1/src/BIT_STRING.c:469-537 | beyond the upper bound: a set extension bit and fragments, or refusal without extension; without upper bound a clear bit |
| BitStringForms.FragmentForms | decoder-module/asn1/src/BIT_STRING.c:521-537 | the fragments of every value, octet by octet of their lengths, with a zero octet iff whole blocks end it |
| BitStringForms.PackedForm | decoder-module/asn1/src/BIT_STRING.c:376-414 | decoded bits stand left-aligned, padded with zeros to whole bytes, and the unused bits are counted |
| BitStringForms.RootRead | decoder-module/asn1/src/BIT_STRING.c:376-415 | whatever length the field holds is read, also one beyond the upper bound; short input wants more |
| BitStringForms.OpenRead | decoder-module/asn1/src/BIT_STRING.c:387-416 | a length in one or two octets is followed by that many bits of value |
| BitStringForms.DecodeIgnoresRest | decoder-module/asn1/src/BIT_STRING.c:317-419 | bits behind those read have no influence |
| BitStringForms.CutAsksForMore | decoder-module/asn1/src/BIT_STRING.c:317-419 | an encoding of any accepted value cut anywhere wants more, so none is a prefix of another |
| IntegerOer.EncodeOer | decoder-module/asn1/src/INTEGER_oer.c:102-177 | writes length and shortest content, or padding and content; the reported count is what was written |
| IntegerOer.SkipRedundant | decoder-module/asn1/src/INTEGER_oer.c:128-146 | the loop skips exactly the redundant leading bytes |
| IntegerOer.WritePadding | decoder-module/asn1/src/INTEGER_oer.c:166-170 | one sign byte for each missing byte |
| IntegerOer.StrippedKeepsValue | decoder-module/asn1/src/INTEGER_oer.c:127-146 | stripping keeps the two's-complement or unsigned value, and the sign |
| IntegerOer.FitsIffShort | decoder-module/asn1/src/INTEGER_oer.c:160-162 | the value fits a width iff its stripped bytes do |
| IntegerOer.StrippedIsShortest | decoder-module/asn1/src/INTEGER_oer.c:127-146 | no shorter bytes denote the same value |
| IntegerOer.EncodesIffFits | decoder-module/asn1/src/INTEGER_oer.c:115-162 | encoding succeeds iff the integer fits the signed or unsigned width, or is not negative when unsigned without width |
| IntegerOer.UnboundedIsShortest | decoder-module/asn1/src/INTEGER_oer.c:148-158 | without width the content is the shortest that denotes the integer |
| IntegerOer.DecodeOer | decoder-module/asn1/src/INTEGER_oer.c:12-97 | the stored bytes and the count, want-more, or failure |
| IntegerOer.LengthRoundTrip | decoder-module/asn1/src/oer_support.c:18-121 | a written length is read back, unless it exceeds `RSIZE_MAX` |
| IntegerOer.RoundTrip | decoder-module/asn1/src/INTEGER_oer.c:12-97 | decoding the output followed by anything returns the same integer and consumes the reported count |
| IntegerForms.LengthForms | decoder-module/asn1/src/oer_support.c:80-121 | a length below 128 is one byte; otherwise 128 plus the number of bytes, then the length big-endian without leading zero |
| IntegerForms.LongFormRead | decoder-module/asn1/src/oer_support.c:38-70 | every long form is read, with leading zeros or not, and refused iff it exceeds half of the size range |
| IntegerForms.FixedWidthDenotes | decoder-module/asn1/src/INTEGER_oer.c:160-177 | with a width exactly so many bytes are written, and they denote the integer |
| IntegerForms.FixedWidthRead | decoder-module/asn1/src/INTEGER_oer.c:54-97 | any bytes of the width are stored as the integer they denote, a large unsigned one with a zero in front |
| IntegerForms.DelimitedRead | decoder-module/asn1/src/INTEGER_oer.c:36-97 | the same behind a length; without content the sign test looks at the next byte |
| IntegerForms.DecodeIgnoresRest | decoder-module/asn1/src/INTEGER_oer.c:12-97 | bytes behind those read have no influence, but for that sign test |
| IntegerForms.CutAsksForMore | decoder-module/asn1/src/INTEGER_oer.c:12-97 | an encoding cut anywhere wants more |
| PathHistory.AngDiffIsShortest | src/PHpoints.cpp:12-23 | the result is always a turn between the two headings, some number of rounds apart from their difference; up to one and a half turns apart it is the shortest, and only then within half a turn |
| PathHistory.SkipsIff | src/PHpoints.cpp:80-91 | for headings up to 540 degrees apart, a report is skipped iff it is nearer than the maximum to the point looked back at and either nearer than the minimum or some turn between the headings is below the threshold |
| PathHistory.InsertStores | src/PHpoints.cpp:80-119 | an accepted report is stored field by field in the slot written next, with its distance from the point looked back at, or 0 when there is none; a skipped one changes nothing |
| PathHistory.InsertRefinesQueue | src/PHpoints.cpp:77-122 | an accepted report drops a prefix of the live points and appends one, a skipped one changes nothing; order and distance sum are kept iff a slot is free |
| PathHistory.DropManyIsShortest | src/PHpoints.cpp:100-104 | the loop drops the shortest prefix that brings the distance below the limit or leaves one point |
| PathHistory.EvictedIsSuffix | src/PHpoints.cpp:93-105 | under either policy what is left is the live suffix the policy asks for |
| PathHistory.WriteAppends | src/PHpoints.cpp:110-119 | a write with room appends; a write onto a full ring breaks the order |
| PathHistory.LookBackIsNewest | src/PHpoints.cpp:82-84 | the slot looked back at is the newest point iff the next index is positive or the ring is full; then the distance taken is that from the newest point |
| PathHistory.LinkedIffSeen | src/PHpoints.cpp:80-119 | an insertion with room keeps each recorded distance equal to that from the preceding live point iff the look-back gives the distance from the newest point |
| PathHistory.LinkedIffSeenThroughout | src/PHpoints.cpp:77-122 | the same over every run with room |
| PathHistory.LinkedIsApart | src/PHpoints.cpp:86-91 | where recorded distances are true, neighbouring live points really are at least the minimum apart |
| PathHistory.LookBackMisses | src/PHpoints.cpp:82-91 | three reports from the empty history lead to a miss: a fourth from the newest position is accepted, and two neighbours recorded five apart coincide |
| PathHistory.CeilBounds | src/PHpoints.cpp:56-56 | the capacity is the least number of minimum gaps that cover the limit |
| PathHistory.SettledHasRoom | src/PHpoints.cpp:86-112 | once every live point records at least the minimum, every write finds a free slot, under either policy, and that stays so |
| PathHistory.FullWriteIff | src/PHpoints.cpp:86-112 | an accepted report meets a full ring iff all slots are live and cover less than the limit; then the oldest is the first point, without distance |
| PathHistory.EvictionSettles | src/PHpoints.cpp:93-105 | after the first drop all live points record at least the minimum distance |
| PathHistory.InsertKeepsSpacing | src/PHpoints.cpp:86-91 | all live points but the oldest go on recording at least the minimum distance |
| PathHistory.OrderIffRoom | src/PHpoints.cpp:77-122 | over every run of reports and setting changes, the ring is a queue throughout iff no write meets a full ring |
| PathHistory.SettledRunHasRoom | src/PHpoints.cpp:77-122 | from a settled history on, no run whatever writes onto a full ring |
| PathHistory.RunKeepsSpacing | src/PHpoints.cpp:77-122 | every run with room, from the empty history on, keeps all recorded distances but the oldest at least the minimum |
| PathHistory.DropSettlesRun | src/PHpoints.cpp:77-122 | a run with room that drops a point ends settled |
| PathHistory.CapacitySuffices | src/PHpoints.cpp:56-119 | from the empty history, once a run with room has dropped its first point, every continuation finds a free slot at every write |
| PathHistory.FirstRoundOverflows | src/PHpoints.cpp:56-119 | three reports one minimum apart overflow a ring sized for two and break its order |
| PathHistory.ClearedIsOrderedIff | src/PHpoints.cpp:168-174 | a cleared history is in order iff nothing was covered before |
| PathHistory.ClearingKeepsDistance | src/PHpoints.cpp:168-174 | two reports after which a cleared history claims distance 1 with no points |
| PathHistoryObject.PHpoints.constructor | src/PHpoints.cpp:25-41 | an empty ring of 300 slots with limits 300, 1 and 20 m and 10 degrees, the looping removal policy, and not in full iteration mode |
| PathHistoryObject.PHpoints.WithLimits | src/PHpoints.cpp:43-59 | an empty ring sized by the limits, usable iff that is at least one slot, with the same policy and iteration mode |
| PathHistoryObject.DefaultsAreSized | src/PHpoints.cpp:26-38 | 300 slots are what the default limits call for |
| PathHistoryObject.PHpoints.SwitchRemoveOnlyOne | src/PHpoints.cpp:65-74 | toggles the policy and returns it |
| PathHistoryObject.PHpoints.EvictPoints | src/PHpoints.cpp:93-105 | the object's eviction is that of the ring value |
| PathHistoryObject.PHpoints.WritePoint | src/PHpoints.cpp:110-119 | the slot, the next index and the size after a write |
| PathHistoryObject.PHpoints.Insert | src/PHpoints.cpp:76-122 | skipped leaves every field as it was; inserted writes one slot and leaves the others; the whole new state is that of the ring value |
| PathHistoryObject.PHpoints.Clear | src/PHpoints.cpp:167-174 | empties the ring, keeps the stored distance |
| PathHistoryObject.PHpoints.Iterate | src/PHpoints.cpp:124-165 | for any valid object, returns the next older of the points written last and moves on; terminates iff none remains; the look-ahead, unless invalid, is the point returned next, and is invalid when at most one remains |
| PathHistoryObject.PHpoints.IterateAll | src/JSONserver.cpp:321-329 | iterating to the end yields the points written last, newest first, all in full mode, without the newest otherwise; in an ordered history these are the live points |
| PathHistory.RecentIsLive | src/PHpoints.cpp:124-165 | the points written last are, in an ordered ring, the live points backwards |
| VehicleDatabase.KeysIdentify | src/LDMmap.cpp:6-10 | two stations share both keys iff their IDs agree modulo 2^32 |
| VehicleDatabase.KeysAreHalves | src/LDMmap.cpp:6-10 | the keys are the upper and lower 16 bits of the low 32 bits of the ID |
| VehicleDatabase.FlatPut | src/LDMmap.cpp:45-65 | storing under both keys is storing in the flat map, with or without an existing inner map |
| VehicleDatabase.FlatErase | src/LDMmap.cpp:165-165 | erasing in an inner map is erasing in the flat map |
| VehicleDatabase.FlatIsSmall | src/LDMmap.cpp:38-40 | there are at most 2^32 entries |
| VehicleDatabase.SameDatabase | src/LDMmap.cpp:159-163 | flat map and upper keys determine the two-level map, emptied inner maps included |
| VehicleDatabase.AgeingIsExactIff | src/LDMmap.cpp:164-164 | the test agrees with the true age iff the record time is not ahead of the clock, or the wrapped age is within the limit, or the true age beyond it |
| VehicleDatabase.AheadIsDeleted | src/LDMmap.cpp:164-164 | a record one microsecond ahead of the clock is deleted under any usual limit |
| DatabaseRuns.CountedIffRemoves | src/LDMmap.cpp:33-223 | over every run the counter is right all along iff every removal that finds its vehicle has upper key 0 |
| DatabaseRuns.CountedIsNeverFull | src/LDMmap.cpp:38-40 | while it is right, no report is refused |
| DatabaseRuns.RemovingTwiceFills | src/LDMmap.cpp:80-98 | removing a vehicle with ID 65536 twice leaves it stored with the counter at its end, and every report is refused |
| DatabaseRuns.RunFollowsEach | src/LDMmap.cpp:33-223 | over every run without a refused report, what is kept of a vehicle depends on its own reports and removals, the deletions and the clearings alone |
| LdmMap.LDMMap.constructor | src/LDMmap.cpp:21-26 | an empty, valid database with counter 0 |
| LdmMap.LDMMap.Place | src/LDMmap.cpp:45-71 | creates or overwrites one entry of the flat map; a new entry gets a fresh, empty history, an old one keeps its own |
| LdmMap.LDMMap.Insert | src/LDMmap.cpp:32-77 | return code, counter and kept reports as for a flat map; every history stays the fold of its own vehicle's reports, none is shared; never full while the counter is right |
| LdmMap.LDMMap.Extend | src/LDMmap.cpp:74-74 | inserting into one history leaves all others as they are |
| LdmMap.LDMMap.Lookup | src/LDMmap.cpp:100-118 | finds the entry iff the vehicle has one: its latest report and its own history |
| LdmMap.LDMMap.Remove | src/LDMmap.cpp:80-98 | not found changes nothing; else the counter drops, and the entry goes iff the upper key is 0, which is also when the counter stays right |
| LdmMap.LDMMap.SelectLower | src/LDMmap.cpp:128-132 | the inner loop adds each entry in range under one upper key once |
| LdmMap.LDMMap.RangeSelect | src/LDMmap.cpp:120-138 | an entry is listed iff its latest position is within range, each once, and nothing else is listed |
| LdmMap.LDMMap.ServePaths | src/JSONserver.cpp:146-173 | what one request reads: the entries in range, and for each the points its own history iterates to, one fewer than it holds, newest to oldest without the newest, the live points while the history is ordered |
| LdmMap.LDMMap.RangeSelectAround | src/LDMmap.cpp:140-151 | the same around the latest position of a vehicle, or not found |
| LdmMap.LDMMap.DeleteOlderThan | src/LDMmap.cpp:153-174 | keeps exactly the entries not too old with their histories, keeps all upper keys, lowers the counter by the number deleted |
| LdmMap.LDMMap.DeleteOlderThanAndExecute | src/LDMmap.cpp:176-199 | the same, and the callback gets the station ID of each deleted entry exactly once, as many calls as entries less |
| LdmMap.DeletionsAgree | src/LDMmap.cpp:154-199 | both passes leave the same database and counter |
| LdmMap.DeletionIsExact | src/LDMmap.cpp:159-173 | while no record time is ahead of the clock, an entry stays iff its age is at most the limit, unchanged, and the counter is the size |
| LdmMap.LDMMap.Clear | src/LDMmap.cpp:201-223 | every history that was stored is empty, with its indices reset; both map levels are empty and the counter is 0 |
| LdmMap.LDMMap.Replay | src/LDMmap.cpp:32-223 | any run of insertions, removals, deletions and clearings takes the database where it takes the flat map and counter, valid throughout |
| VehicleDatabase.ListsCount | src/LDMmap.cpp:124-135 | a listing is as long as the map and holds each of its values and no others |
| MessageIntake.ManageLowFrequency | src/SocketClient.cpp:14-40 | the container's lights if it has any, unavailable if it has none; without container those of the latest stored report, or unavailable |
| MessageIntake.ManageMessage | src/SocketClient.cpp:205-302 | an accepted message leaves a latest report with its station, its latitude, longitude, altitude, heading and speed scaled to degrees, metres and metres per second, and the clock; stores or drops the message as the two decisions say, unless the counter is at its end, which a right counter never is; the database stays valid and a right counter right |
| MessageIntake.FreshnessIff | src/SocketClient.cpp:270-273 | for times less than a cycle apart the check tells older from newer iff they are at most five minutes apart, or, across a reset, not within five minutes of a whole cycle |
| MessageIntake.FreshNear | src/SocketClient.cpp:249-273 | within (-300000, 300000] ms the check is right, reset or not |
| MessageIntake.DropsOlder | src/SocketClient.cpp:245-282 | a message is dropped iff it is older than the stored one, the check is on and a log file is configured |
| MessageIntake.NewestIsStored | src/SocketClient.cpp:245-282 | over every run of messages within five minutes of the stored one, the stored true time is the maximum over all messages since the entry was created, so it never decreases |
| MessageIntake.GoesBackIff | src/SocketClient.cpp:274-279 | an older message replaces a newer one iff the check is off or no log file is configured |
| MessageIntake.NoStampDropsIff | src/SocketClient.cpp:270-280 | against an entry without GN timestamp, a message with one is dropped iff the check is on and a log file is configured, however new it is |
| MessageIntake.NoStampBlocks | src/SocketClient.cpp:238-241 | after a stored message without GN timestamp, no message with one is accepted until the entry is deleted |
| MessageIntake.LightsOverRuns | src/SocketClient.cpp:14-28 | over every run of messages and deletions the stored lights are those of the latest accepted message with a low-frequency container since the entry was created, else unavailable |
| MessageIntake.FieldsOverRuns | src/SocketClient.cpp:213-302 | over every run of messages and deletions, the stored position, altitude, heading, speed and times are those of the latest message accepted since the entry was created, and every earlier report says what its own message said |

## Left out

- Sockets, threads, timers, the JSON server's connection handling, the visualizer, gpsd and option parsing: input, output and user interface.
- Mutexes of the database: each operation is one atomic step.
- Rounding of floating-point arithmetic: distances, positions and ages are reals; 0.0 and -0.0 are one value; `strtod` and `%.17g` are functions with a contract.
- The haversine formula: any function of two positions, so results hold for every distance.
- The identity shortcut of `operator==` and `operator<`: comparison is by content; `JsonOrder.ReflexiveIffNaNFree` says when that shows.
- Error messages are constructors carrying the offending byte or text, not English sentences.
- json11's remaining accessors, conversions and `has_shape`: each is settled by reading one body.
- Bit-level reading and writing of `asn_bit_data.c`: streams are sequences of bits with the documented contract of each operation.
- NULL arguments, failed allocations and failing callbacks of the C codecs.
- Size constraints whose length field has more than 16 bits or cannot hold the range: the generated tables have none (`BitStringPer.SizeConstraint.WellFormed` is assumed by the round trip, not by the methods).
- Decoding into a structure that already holds a BIT STRING: the structure is fresh.
- The byte behind an empty unsigned OER content, which the decoder reads: it is the parameter `beyond`, and may be anything.
- `BIT_STRING_oer.c`, XER, random fill, the other ASN.1 types, the generated tables, GeoNetworking and BTP headers.
- Insertion into a history with limits that give capacity 0, which divides by zero: the object is then not valid.
- The uninitialised stored distance and the merely reserved vector of a new history: a history starts with distance 0 and as many slots as its capacity.
- Freed memory, including the histories that deletions leak: deleted histories stay allocated but unowned.
- The relative distances, ages and texts the JSON server writes beside each vehicle and its path, and enhanced vehicles, which it writes without path.
- Reports' remaining fields (station type, sizes, loads, addresses, signal strengths), which no modelled decision reads.
- The vector a selection appends to starts empty, as with every caller.
- Printing and visiting all contents of the database, and the central position.
- DENM reception, the update-period log line, and the split between standard and enhanced CAMs, which take the same two decisions.
