# A verified model of Ppconsul's data path

Ppconsul is a C++ client for Consul. What it sends and receives goes through four pieces of
algorithmic code, and this project models them and proves what they are for:

- the JSON parser and printer it carries (`ext/json11`), with its depth limit, sticky errors,
  push-back, comments, surrogate pairs and `parse_multi`;
- the resumable base64 encoder and decoder (`ext/b64`) and the functions that wrap them;
- keyword arguments (the last one of a keyword counts), query strings and percent-encoding;
- the pool of HTTP clients, whose factory runs outside the lock.

Two further modules join them: the body of a key-value transaction (JSON with base64 values) and the
loading of key-value entries from a response.

## How the model is built

- `Bytes` are integers 0..255. A `char` is signed in the original, so the parser's test for control
  bytes lets 0x80..0xff pass and the base64 table lookup wraps around; both appear as what they do to
  the unsigned value. Reading `str[size]` gives a NUL.
- `JsonGrammar` is the grammar as an inductive tree with a text, a height and a value. `JsonSyntax` is
  a reference parser on values; `JsonLexical`, `JsonCorrect` and `JsonDocument` prove it sound and
  complete for the grammar. `JsonParser` is the parser as the original has it, an object with a
  cursor and a sticky error; every method agrees with the reference parser. `JsonStrings` and `Utf8`
  say why one pending code unit suffices, and what is encoded. `JsonPrinter` and `JsonRoundTrip` do
  the printer, `JsonMulti` the two entry points, `JsonValue` and `JsonCompare` the values and their
  order. `JsonLiterals`, `Utf8` and `JsonSeparators` say what literals, strings and dumps are on their bytes.
- A JSON object lists its members in key order, as `std::map` iterates. Whether a comparison meets one
  pointer on both sides is an oracle that depends on the place in the values as well, and may hold only
  of equal values; the theorems hold for every such oracle, and for a different one in each comparison.
- `Base64` has RFC 4648, the two state machines and their theorems; `Base64Codec` has the functions
  that write to a buffer, proved against the machines.
- `Kwargs`, `Url`, `Query` and `Consul` follow the headers of the same names. The folds over types
  are functions over sequences of keywords; a keyword is equal to itself only, whatever its name.
- `ClientPool` is a state machine over the steps that can interleave (the locked part of acquiring,
  the outcome of the factory, dropping a handle, and the locked part of releasing, which may run out
  of memory), and the class whose methods take these steps.
- `Txn` and `KeyValues` are the transaction body and the loading of entries. Whoever reads a body or
  writes a response has lists of names of its own, apart from those of the client.
- `Doubles` is rounding to IEEE 754 binary64 on real numbers: subnormals, ties to even, overflow.
  `JsonNumbers` is `%.17g`, and why 17 digits bring every double back. `Powers` and `Numerals` are the
  arithmetic of powers and numerals below them.

Errors of the parser are an enumeration. `Json()` is null. A failed `parse_json` returns null, or the
empty string where it was reading a string; `parse_multi` leaves that value as its last element.

## Results that differ from what one might expect

- Flags and indexes of a transaction are sent as doubles, so a body does not always determine its
  operations. `Txn.TxnBodyRoundTrip` says exactly when it does, and `Txn.FlagsAreLost` names the first
  pair of flags that is lost. `KeyValues.LoadedIntegers` and `KeyValues.GreatestIsUndefined` say the same
  of loading, where the comment at src/s11n.h:64 knows of the limit.
- `==` on JSON values takes a shared pointer for equality, so a value with NaN in it equals itself but
  not its copy (`JsonCompare.EqualExactly`, `JsonCompare.CopyIsEqualIffNoNaN`); `<` has no such exception.
- The header promises that `parse_multi` reads values that are concatenated. `1` and `2` without a gap
  are the number `12` (`JsonMulti.OneTwoIsTwelve`); `JsonMulti.StreamIsRead` says exactly when
  concatenation works.
- A literal such as `1e400` is accepted and becomes infinity, which prints as null
  (`JsonRoundTrip.LiteralOverflows`, `JsonRoundTrip.ParseDumpParse`).
- The unfinished byte that the decoder saves matters at every step but the first
  (`Base64.SavedByteMatters`).

## Model

| member | source | states |
|---|---|---|
| `JsonDocument.AcceptsExactlyTheGrammar` | ext/json11/json11.cpp:732-744 | For both strategies and every byte string: `Json::parse` accepts it if and only if it is the text of a document of the RFC 8259 grammar (sections 2 to 7, any bytes from 0x20 up inside strings; with comments in the gaps when they are allowed) that nests at most 200 deep |
| `JsonDocument.DocumentSound` | ext/json11/json11.cpp:732-744 | An accepted input is exactly the text of the tree the parser found, gaps included |
| `JsonDocument.DocumentComplete` | ext/json11/json11.cpp:644-744 | Every document of the grammar parses to its own tree when it nests at most 200 deep, and fails with the depth error, and no other, when it nests deeper |
| `JsonDocument.GrammarIsUnambiguous` | ext/json11/json11.cpp:644-744 | A text within the depth limit has one tree only, and no deeper tree shares its text |
| `JsonDocument.CommentsExtendStandard` | ext/json11/json11.hpp:73-75 | Allowing comments changes no result on input that is accepted without them |
| `JsonDocument.LastDuplicateKeyWins` | ext/json11/json11.cpp:688-688 | Every key of an accepted object has the value of its last member, and the members are in the byte order of `std::map` |
| `JsonDocument.WhiteSpaceIsSkipped` | ext/json11/json11.cpp:377-380 | Any run of the bytes 0x20, 0x09, 0x0a and 0x0d in front of an input changes nothing, whether it is accepted or not |
| `JsonCorrect.BareSound` | ext/json11/json11.cpp:644-728 | By induction over the input: what `parse_json` reads is the text of a tree in the grammar, with its height added to the depth within the limit |
| `JsonCorrect.BareComplete` | ext/json11/json11.cpp:644-728 | By induction over the tree: `parse_json` on its text, whatever may follow, gives the tree and stops at its end, or fails as too deep exactly when depth and height exceed 200 |
| `JsonCorrect.ItemsComplete` | ext/json11/json11.cpp:703-725 | The list loop reads exactly the items of a list and its closing bracket |
| `JsonCorrect.MembersComplete` | ext/json11/json11.cpp:670-701 | The object loop reads exactly the members of an object and its closing brace |
| `JsonLexical.SkipGapSound` | ext/json11/json11.cpp:424-435 | What `consume_garbage` skips is a gap of the grammar (white space, and comments when allowed), and it stops at the end or at a byte that starts no gap |
| `JsonLexical.SkipGapComplete` | ext/json11/json11.cpp:377-435 | A gap of the grammar is skipped whole, whatever follows it |
| `JsonLexical.SkipEndGapComplete` | ext/json11/json11.cpp:386-418 | At the end of the input a line comment may lack its newline |
| `JsonLexical.LexUnitsSound` | ext/json11/json11.cpp:480-567 | A string that is read is a sequence of well-formed raw bytes, simple escapes and four-digit code units, up to the first unescaped quote |
| `JsonLexical.LexUnitsComplete` | ext/json11/json11.cpp:480-567 | Every such sequence is read back unit by unit |
| `JsonLexical.LexNumberSound` | ext/json11/json11.cpp:573-622 | An accepted number literal is in the grammar of section 6 of RFC 8259, and the cursor stops right behind it |
| `JsonLexical.LexNumberComplete` | ext/json11/json11.cpp:573-622 | Every number literal of that grammar is read whole, when nothing that follows could continue it |
| `JsonLiterals.LiteralIsRead` | ext/json11/json11.cpp:573-622 | On the bytes of any literal (sign, whole part, fraction, `e` or `E`, optional sign and digits, each part optional as in the grammar): it is read whole, and denotes its digits without the point times ten to the exponent less the digits behind the point, where the exponent is negative exactly behind a minus sign |
| `JsonLiterals.LiteralIsParsed` | ext/json11/json11.cpp:573-622 | As a document, such a literal is the double for that value, by the shortcut or by `strtod` |
| `JsonLiterals.ExponentScales` | ext/json11/json11.cpp:608-621 | An exponent multiplies the value of a literal by ten to its digits, or to minus its digits exactly when its sign is a minus |
| `JsonLiterals.PointShifts` | ext/json11/json11.cpp:597-606 | A point with n digits behind it divides by ten to the n, and a minus in front negates |
| `JsonStrings.StringFromStart` | ext/json11/json11.cpp:480-483 | Reading with no pending code unit is the two-pass definition: split into units, then join surrogates greedily and encode |
| `JsonStrings.ByteStep` | ext/json11/json11.cpp:497-503 | A raw byte or simple escape flushes the pending code unit and is appended; the two-pass result is unchanged |
| `JsonStrings.CodeStep` | ext/json11/json11.cpp:511-546 | A code unit completes a pending high surrogate to one code point, or flushes it and becomes pending, also in runs such as high-high-low; the two-pass result is unchanged |
| `JsonStrings.EndStep` | ext/json11/json11.cpp:489-492 | The closing quote flushes the pending code unit |
| `Utf8.Utf8RoundTrip` | ext/json11/json11.cpp:455-474 | The bytes appended for a code point up to U+10FFFF are its shortest form in RFC 3629 (lone surrogates in three bytes), and decode to it whatever follows |
| `Utf8.PairIsUtf16` | ext/json11/json11.cpp:532-538 | A surrogate pair combines to the one code point in U+10000..U+10FFFF whose UTF-16 form it is |
| `Utf8.HexInEitherCase` | ext/json11/json11.cpp:520-526 | Four bytes are accepted and read as a code unit if and only if, with A to F as a to f, they are the four hexadecimal digits of it |
| `Utf8.EscapesSpellText` | ext/json11/json11.cpp:511-546 | On the bytes: a text of \u escapes whose digits, A to F as a to f, are the hexadecimal digits of the UTF-16 code units of a Unicode text is read up to the quote as that text in UTF-8 |
| `Utf8.SpelledStringIsRead` | ext/json11/json11.cpp:480-567 | On the bytes of any string document whose parts are plain bytes, the eight letters behind a backslash, and code points escaped in digits of either case, in any mixture: it parses to what the parts stand for |
| `Utf8.TextHasSpelling` | ext/json11/json11.cpp:511-526 | Every Unicode text can be written in such escapes, of six bytes for each code unit |
| `JsonParser.JsonParser.Fail` | ext/json11/json11.cpp:361-371 | The first error is kept and the parser stays failed |
| `JsonParser.JsonParser.ConsumeComment` | ext/json11/json11.cpp:386-418 | Skips one comment or fails; the subtraction from the input size never underflows and no read is past the terminating NUL |
| `JsonParser.JsonParser.ConsumeGarbage` | ext/json11/json11.cpp:424-435 | Moves the cursor over exactly the gap that is there, or records its error; terminates |
| `JsonParser.JsonParser.GetNextToken` | ext/json11/json11.cpp:442-449 | Returns the next byte that is no gap and moves past it, or 0 when the parser has failed |
| `JsonParser.JsonParser.HexDigits` | ext/json11/json11.cpp:512-526 | Returns the four hexadecimal digits at the cursor, or records the error |
| `JsonParser.JsonParser.EscapeLetter` | ext/json11/json11.cpp:551-565 | Returns the byte for one of the eight letters, and records an error for any other |
| `JsonParser.JsonParser.ParseString` | ext/json11/json11.cpp:480-567 | The single pass with one pending code unit returns the two-pass value of the string, on every input |
| `JsonParser.JsonParser.ParseNumber` | ext/json11/json11.cpp:573-622 | Accepts exactly the number literals, and returns the double nearest to the literal, or infinity, on the `atoi` shortcut and on the `strtod` path alike |
| `JsonParser.AtoiIsExact` | ext/json11/json11.cpp:592-595 | On integers of at most nine characters the shortcut gives the value `strtod` would give |
| `JsonParser.JsonParser.Expect` | ext/json11/json11.cpp:629-638 | The step back is never below zero; the word is consumed if it is there, and an error recorded if not |
| `JsonParser.JsonParser.ParseObject` | ext/json11/json11.cpp:670-701 | The object loop computes the value of the tree that the reference parser finds, last duplicate key included, or records its error |
| `JsonParser.JsonParser.ParseList` | ext/json11/json11.cpp:703-725 | The list loop, with its step back before each item, computes the value of the tree that the reference parser finds, or records its error |
| `JsonParser.JsonParser.ParseJson` | ext/json11/json11.cpp:644-728 | Keeps an earlier failure; otherwise agrees with the reference parser on result, error and cursor, strictly advances the cursor on success, and terminates. A failure returns null, or the empty string if a string was being read |
| `JsonMulti.Parse` | ext/json11/json11.cpp:732-744 | Returns the value of the accepted document or null with the error; an initially empty error stays empty if and only if the input is accepted |
| `JsonMulti.ParseMulti` | ext/json11/json11.cpp:747-766 | Returns the accepted values, on failure one more element (the value just read, null, or the empty string for an unreadable string), the stop position behind the last accepted value and its gap, and the first error |
| `JsonMulti.PrefixParsesAlone` | ext/json11/json11.cpp:747-766 | Whether or not it fails, `parse_multi` on the input up to its stop position returns exactly the accepted values, reads everything and reports no error |
| `JsonMulti.FirstValueAlone` | ext/json11/json11.cpp:754-764 | A value and the gap behind it are read alike whatever token comes next, unless the value is a number, the gap is empty and the next byte could continue the literal |
| `JsonPrinter.DumpString` | ext/json11/json11.cpp:77-112 | Appends the escaped text of every byte string; the look-ahead for U+2028 and U+2029 never reads past the terminating NUL |
| `JsonPrinter.Dump` | ext/json11/json11.cpp:53-142 | Appends the text of the canonical tree of the value, with 17 significant digits for numbers that need them and null for infinities and NaN |
| `JsonPrinter.DumpList` | ext/json11/json11.cpp:114-124 | The items in order, with a comma and a space between them |
| `JsonPrinter.DumpObject` | ext/json11/json11.cpp:126-138 | The members in map order, with a comma and a space between them |
| `JsonSeparators.DumpHasNoSeparator` | ext/json11/json11.cpp:99-106 | No dump of any value holds the bytes e2 80 a8 or e2 80 a9 anywhere, so neither U+2028 nor U+2029 |
| `JsonRoundTrip.EscapeRoundTrip` | ext/json11/json11.cpp:77-112 | Every byte string survives being printed and read as a JSON string: NUL, control bytes, truncated 0xE2 sequences and all |
| `JsonNumbers.PrintedRoundTrip` | ext/json11/json11.cpp:57-65 | Every finite double, subnormal and greatest ones included, printed with `%.17g` is a literal of the grammar that is read back as the same double |
| `JsonNumbers.DigitsAreClose` | ext/json11/json11.cpp:60-60 | The 17 digits differ from the double by less than its 2^54th part |
| `JsonNumbers.LayoutValue` | ext/json11/json11.cpp:60-60 | Plain and scientific layout, without zeros at the end, denote the 17 digits exactly |
| `JsonNumbers.PrintedShape` | ext/json11/json11.cpp:57-65 | What C prescribes for `%.17g`: plain notation exactly from 0.0001 up to below 10^17 and otherwise one digit, an `e`, a sign and at least two digits; no zero ends a fraction; what is printed is within a 2^54th part of the number |
| `JsonNumbers.IntegersPrintPlainly` | ext/json11/json11.cpp:67-71 | Integers of at most 17 digits have the text that `%d` gives, so the two printing functions agree |
| `Numerals.DigitsRoundTrip` | ext/json11/json11.cpp:67-71 | The decimal digits of a natural number are digits, have no leading zero, and denote the number |
| `JsonRoundTrip.CanonicalTree` | ext/json11/json11.cpp:53-142 | The tree that is printed for a value is in the grammar, nests as deep as the value and denotes it, with null for numbers that are not finite |
| `JsonRoundTrip.DumpRoundTrip` | ext/json11/json11.cpp:644-744 | Parsing a dump succeeds if and only if the value nests at most 200 deep; then it gives the value back (null for infinities and NaN), and otherwise it fails with the depth error |
| `JsonRoundTrip.ScrubbedIsIdentity` | ext/json11/json11.cpp:57-65 | A value comes back unchanged if and only if all its numbers are finite |
| `JsonMulti.StreamIsRead` | ext/json11/json11.cpp:747-766 | Values concatenated or separated by gaps, the last gap possibly an unfinished line comment, are read one by one to the end without an error if and only if no number literal is directly followed by one without a sign |
| `JsonMulti.OneTwoIsTwelve` | ext/json11/json11.hpp:177-182 | The numerals 1 and 2 without a gap are read as the one number 12 |
| `JsonRoundTrip.StreamRoundTrip` | ext/json11/json11.hpp:177-182 | Dumps that are concatenated or separated by any gaps are read back as the trees that were printed, to the end and without an error, if and only if no finite number is directly followed by one without a sign; they denote the values, with null for infinities and NaN |
| `JsonRoundTrip.SeparatedStreamRoundTrip` | ext/json11/json11.hpp:177-182 | Dumps with some white space (or comment, when allowed) behind each but the last are always read back to their list |
| `JsonRoundTrip.ParsedValue` | ext/json11/json11.cpp:644-728 | Every value the parser makes is in map order at every depth, holds doubles or infinities, and nests no deeper than its text |
| `JsonRoundTrip.LiteralOverflows` | ext/json11/json11.cpp:621-621 | A literal becomes infinite if and only if its decimal value is at least half a unit of the last place above the greatest double |
| `JsonRoundTrip.ParseDumpParse` | ext/json11/json11.cpp:732-744 | Printing any accepted document and parsing it again succeeds and gives the same value, with null for literals that had become infinite; so the same value if and only if none had |
| `JsonValue.MapOfCorrect` | ext/json11/json11.cpp:671-688 | After any assignments `std::map` is in key order and holds the last value of each key |
| `JsonValue.AssignIsUpdate` | ext/json11/json11.cpp:688-688 | An assignment changes the value of its own key only |
| `Bytes.LexTrichotomy` | ext/json11/json11.cpp:161-167 | The byte order of strings is total |
| `Bytes.LexLessIsFirstDifference` | ext/json11/json11.cpp:161-167 | A string is below another one if and only if its byte, as an unsigned value, is smaller at the first difference, or it is a proper prefix |
| `Bytes.LexTransitive` | ext/json11/json11.cpp:161-167 | The byte order of strings is transitive |
| `JsonCompare.EqualExactly` | ext/json11/json11.cpp:302-309 | For every pattern of sharing, place by place: `==` holds if and only if the values are equal and every NaN in them lies at or below a shared pointer |
| `JsonCompare.EqualIsEquality` | ext/json11/json11.cpp:302-309 | Without NaN, `==` is equality of values at any depth, whatever pointers are shared in which places |
| `JsonCompare.CopyIsEqualIffNoNaN` | ext/json11/json11.cpp:302-309 | A value equals a copy that shares nothing with it if and only if there is no NaN in it |
| `JsonCompare.LessIgnoresSharing` | ext/json11/json11.cpp:311-318 | For every pattern of sharing, place by place, `<` is the order of values: the shared-pointer shortcut never changes its answer, NaN or not |
| `JsonCompare.ScalarOrder` | ext/json11/json11.cpp:165-199 | For every pattern of sharing: finite numbers are below each other by value, minus infinity below and plus infinity above every other number but NaN, which is neither; false is below true; a string is below another one at the first byte that differs, as unsigned values, or as a proper prefix |
| `JsonCompare.TypeOrder` | ext/json11/json11.hpp:82-84 | For every pattern of sharing: null is below numbers, these below booleans, then strings, arrays and objects, and never the other way round |
| `JsonCompare.BelowIrreflexive` | ext/json11/json11.cpp:311-318 | No value is below itself, NaN or not |
| `JsonCompare.ExactlyOneHolds` | ext/json11/json11.cpp:302-318 | Without NaN exactly one of `a == b`, `a < b` and `b < a` holds, through nested lists and objects and whatever each comparison finds shared |
| `JsonCompare.LessTransitive` | ext/json11/json11.cpp:311-318 | Without NaN `<` is transitive, through nested lists and objects and whatever each comparison finds shared |
| `JsonCompare.ListOrderIsLexicographic` | ext/json11/json11.cpp:165-167 | Without NaN a list is below another one if and only if it is at the first difference, or is a proper prefix |
| `JsonCompare.ObjectOrderIsLexicographic` | ext/json11/json11.cpp:165-167 | Without NaN an object is below another one if and only if, at the first member that differs, its key is smaller, or the keys agree and its value is smaller, or it ends there |
| `JsonCompare.ListOrderPassesTies` | ext/json11/json11.cpp:165-167 | With NaN too: a list is below another one if and only if, behind items of which neither is below the other, it has the smaller item or ends first |
| `JsonCompare.ObjectOrderPassesTies` | ext/json11/json11.cpp:165-167 | With NaN too: the same of the members of objects, by key and then by value |
| `JsonCompare.PairTrichotomy` | ext/json11/json11.cpp:165-167 | The lexicographic order of key and value that `std::map` uses is total |
| `Base64.QuadIsGroup` | ext/b64/cencode.c:44-70 | Three bytes become the characters of the four 6-bit digits of their 24-bit number (section 4 of RFC 4648) |
| `Base64.TailsAreZeroFilled` | ext/b64/cencode.c:77-97 | One or two bytes at the end are the group filled up with zero bits, with pads for the characters that hold none of them |
| `Base64.EncodeTable` | ext/b64/cencode.c:16-21 | The encoding table is the alphabet of RFC 4648 |
| `Base64.DecodeTable` | ext/b64/cdecode.c:10-17 | Exactly the 64 alphabet characters have a value, that of the alphabet; the pad and all bytes from 0x80 up, despite the wrap-around of the subtraction, have none |
| `Base64.EncodedShape` | src/helpers.cpp:67-70 | The encoding has 4*ceil(n/3) characters and no newline, so the trim at the end never applies |
| `Base64.EncodeChunks` | ext/b64/cencode.c:23-75 | Encoding any sequence of blocks, empty ones included, with the state carried over gives the output and state of one call |
| `Base64.EncoderRefinesRfc4648` | ext/b64/cencode.c:23-97 | For every chunking the block outputs and the final block are the RFC 4648 encoding of the whole input |
| `Base64.DecodeChunks` | ext/b64/cdecode.c:25-87 | Decoding any sequence of blocks with the state carried over gives the output and state of one call |
| `Base64.SavedByteMatters` | ext/b64/cdecode.c:25-47 | Two different saved bytes give the same output on every continuation if and only if the step is `step_a` |
| `Base64.SavedByteIsIgnored` | ext/b64/cdecode.c:37-47 | In `step_a` neither output nor final state depend on the saved byte |
| `Base64.DecoderIsGroups` | ext/b64/cdecode.c:25-87 | The decoder's output is the group-by-group decoding of the alphabet characters |
| `Base64.LiberalDecoding` | ext/b64/cdecode.c:38-81 | Decoding a string is decoding the subsequence of its alphabet characters; m of them give 3*(m/4) + max(0, m%4 - 1) bytes |
| `Base64.DecodeUndoesEncode` | src/helpers.cpp:46-73 | Decoding the encoding of any byte string gives the string |
| `Base64Codec.EncodeBlock` | ext/b64/cencode.c:23-75 | Writes the output of the encoder machine into the buffer, updates the state and touches nothing else |
| `Base64Codec.EncodeBlockEnd` | ext/b64/cencode.c:77-97 | Writes the padded rest and touches nothing else |
| `Base64Codec.EncodeBase64` | src/helpers.cpp:59-73 | Returns the RFC 4648 encoding; n*4/3+10 bytes of buffer suffice |
| `Base64Codec.PutFragment` | ext/b64/cdecode.c:47-82 | One resume point of the decoder: joins six bits to the unfinished byte, and writes inside the buffer only |
| `Base64Codec.DecodeBlock` | ext/b64/cdecode.c:25-87 | Writes the output of the decoder machine and the unfinished byte after it, updates the state, and never writes beyond; a buffer of exactly that size suffices, the terminator behind it being only read |
| `Base64Codec.DecodeBound` | src/helpers.cpp:51-54 | What decoding writes, unfinished byte included, stays below (n+3)/4*3 |
| `Base64Codec.StepCountsSymbols` | ext/b64/cdecode.c:33-83 | The step counts the alphabet characters read, modulo four |
| `Base64Codec.DecodeBase64` | src/helpers.cpp:46-57 | Returns the group-by-group decoding, with writes only below (n+3)/4*3, the size of the array |
| `Url.SafeIsUnreserved` | src/helpers.cpp:19-37 | The list of unsafe characters is the complement of the unreserved characters of section 2.3 of RFC 3986 |
| `Url.EncodeUrl` | src/helpers.cpp:75-95 | Appends the percent-encoding of every byte in turn |
| `Url.UrlRoundTrip` | src/helpers.cpp:75-95 | Percent-decoding recovers every byte string |
| `Url.UrlTextIsSafe` | src/helpers.cpp:75-95 | The encoded text holds unreserved characters and percent signs only |
| `Kwargs.UniqueIndexesAreLast` | include/ppconsul/kwargs.h:208-235 | The reverse fold lists the index of exactly the last occurrence of every keyword, in ascending order |
| `Kwargs.UniqueArgsKeepLast` | include/ppconsul/kwargs.h:355-364 | `unique_args` drops every argument whose keyword comes again later, and keeps the order of the others |
| `Kwargs.GetPicksTheKeptOne` | include/ppconsul/kwargs.h:318-328 | The index `get` computes in the reversed sequence is the last occurrence, and the only occurrence of the keyword that `unique_args` keeps |
| `Kwargs.GetOptIsKept` | include/ppconsul/kwargs.h:396-426 | `get_opt` gives a value if and only if `unique_args` keeps it for the keyword, and the default when the keyword is absent |
| `Kwargs.LastArgShadows` | include/ppconsul/kwargs.h:208-235 | Appending an argument is the same as removing all earlier ones with its keyword first |
| `Query.PrintParameter` | include/ppconsul/parameters.h:27-38 | Prints the pairs an argument stands for: values percent-encoded, nothing for an empty string or the default consistency |
| `Query.PrintedText` | include/ppconsul/consul.h:81-97 | The text each kind of argument is printed as is the text of its pairs; numbers and modes need no encoding |
| `Query.ParameterPrinter.Print` | include/ppconsul/parameters.h:40-56 | An argument's text and an ampersand, or nothing at all, judged by whether the stream position moved |
| `Query.MakeQuery` | include/ppconsul/parameters.h:63-76 | The pairs of the last argument of each keyword with one ampersand between them and none at the end |
| `Query.PairsRoundTrip` | include/ppconsul/parameters.h:63-76 | Splitting at ampersands and the first equals sign and percent-decoding recovers the pairs; no fragment is empty |
| `Query.QueryIsUnambiguous` | include/ppconsul/parameters.h:63-76 | The query built from any arguments is read back as exactly the last-wins arguments in order of their last occurrence, without the empty strings |
| `Query.EmptyShadows` | include/ppconsul/parameters.h:34-38 | A later empty string removes its keyword from the query as if it had never been given |
| `Query.PairsDetermineValue` | include/ppconsul/parameters.h:27-38 | For a given keyword, different values of its type stand for different pairs |
| `Query.QueryDeterminesArgs` | include/ppconsul/parameters.h:63-76 | Where the printed names tell keywords apart, two argument lists have the same query if and only if the arguments that count and print something are the same, in the same order |
| `Consul.Consul.MakeQuery` | include/ppconsul/consul.h:225-230 | The query of a request is read back as the default data center (unless given or empty) and the other parameters; no token is among them |
| `Consul.Consul.MakeHeaders` | include/ppconsul/consul.h:232-239 | The token header carries the last explicit token, else the default token, beside the content type |
| `ClientPool.ClientsAreExclusive` | src/client_pool.cpp:12-41 | Over all interleavings every client ever created is in one place only: once in the pool, used through one handle, or destroyed |
| `ClientPool.TotalIsLevel` | src/client_pool.cpp:12-41 | Over all interleavings the clients existing or being created are exactly as many as the highest demand, lowered by one at each failure and raised again by later demand |
| `ClientPool.TotalIsPeakDemand` | src/client_pool.cpp:12-41 | They are at most the peak of (in use + returning + being created), and short of it by at most one for each failure; without failures they equal the peak |
| `ClientPool.IdlePoolHoldsPeak` | include/ppconsul/client_pool.h:22-44 | Once everything has come back and nothing has failed, the pool holds the peak number of clients |
| `ClientPool.StepKeepsPlaces` | src/client_pool.cpp:12-41 | Every step keeps each client in exactly one place |
| `ClientPool.ClientPool.TryPop` | src/client_pool.cpp:14-23 | The locked part: the client that came back last, if there is one |
| `ClientPool.ClientPool.Create` | src/client_pool.cpp:25-25 | The part outside the lock: the outcome of the factory, which leaves the pool alone |
| `ClientPool.ClientPool.Acquire` | src/client_pool.cpp:12-26 | The two parts one after the other |
| `ClientPool.ClientPool.Release` | src/client_pool.cpp:28-41 | A client in use goes to the end of the pool, or is destroyed when there is no memory |
| `Txn.VerbsDiffer` | src/kv.cpp:108-216 | The twelve verbs are different texts |
| `Txn.VerbIsKnown` | src/kv.cpp:108-216 | The verb that is sent for a kind of operation is the one that means this kind to a reader with its own list of names |
| `Txn.OpRoundTrip` | include/ppconsul/kv.h:33-123 | Verb and fields tell the twelve kinds of operations apart, and nothing of an operation is lost but what rounding to double loses |
| `Txn.FieldOf` | src/kv.cpp:108-216 | Looking a field up in the object of an operation finds exactly the field the operation has |
| `Txn.EntryRoundTrip` | src/kv.cpp:108-224 | Reading the JSON object of an operation, base64 value included, gives its fields with index and flags as doubles |
| `Txn.TxnBodyRoundTrip` | src/kv.cpp:101-238 | For all 64-bit indexes and flags: parsing a body and reading it by the names Consul gives to verbs and fields gives the operations in order, with values decoded and numbers as doubles; it gives the operations themselves if and only if every index and flag has at most 53 significant bits |
| `Txn.SameBody` | src/kv.cpp:230-238 | Two transactions have the same body if and only if they are the same but for rounding to double |
| `Txn.FlagsAreLost` | src/kv.cpp:108-116 | The flags 2^53 and 2^53 + 1 give the same body |
| `Txn.TxnOpAppender.Visit` | src/kv.cpp:108-216 | Appends the object of the operation to the array |
| `Txn.TxnBodyJson` | src/kv.cpp:230-238 | Returns the body of the transaction, which reads back as its operations with numbers as doubles |
| `Doubles.RoundingKeepsDoubles` | ext/json11/json11.cpp:621-621 | Rounding to double keeps a real number if and only if it is a double: at most 53 significant bits and an exponent in range |
| `Doubles.ToDoubleIs` | src/kv.cpp:226-227 | A 64-bit integer is converted to an integer that is a double, and is kept if and only if it has at most 53 significant bits |
| `Doubles.RoundedIsDouble` | ext/json11/json11.cpp:621-621 | A finite result of rounding is a double |
| `Doubles.RoundedIsNearest` | ext/json11/json11.cpp:621-621 | No double at all is nearer to a number than the one it is rounded to |
| `Doubles.TiesToEven` | ext/json11/json11.cpp:621-621 | Where another double is just as near, the result is the one with the even mantissa |
| `Doubles.CloseIsRounded` | ext/json11/json11.cpp:621-621 | Whatever is nearer to a double than its 2^54th part is rounded to it |
| `Doubles.RoundedOverflows` | ext/json11/json11.cpp:621-621 | A number becomes infinite if and only if its magnitude is at least half a unit of the last place above the greatest double |
| `KeyValues.ParseValues` | src/s11n.h:135-144 | Rejected input is a format error with the parser's error; text that parses to an array of objects that describe entries gives exactly these entries in order; anything that is no array gives none |
| `KeyValues.LoadedIntegers` | src/s11n.h:62-66 | A 64-bit integer literal is loaded as the double it is rounded to, so unchanged if and only if it has at most 53 significant bits |
| `KeyValues.GreatestIsUndefined` | src/s11n.h:62-66 | The greatest 64-bit integer is rounded to 2^64, for which the conversion back is undefined |
| `KeyValues.FractionIsDropped` | src/s11n.h:62-66 | The conversion to 64 bits drops the fraction of every number above -1 and below 2^64, and is undefined for all others |
| `KeyValues.LoadedIsDescribed` | src/kv.cpp:14-28 | An object with the fields CreateIndex, ModifyIndex, LockIndex, Key, Flags, Value and Session, in any order and next to others, is loaded as the entry with these fields, the value decoded from base64; what is missing or of another type counts as zero or empty |
| `KeyValues.AllLoaded` | src/s11n.h:84-97 | The entries of an array are loaded in order |

## Left out

- JsonPrinter.Dump: the two zeros are one value, as they are for the comparisons, so `-0.0` is printed as `0` here and as `-0` by the original.
- JsonParser.JsonParser.ParseNumber: `strtod` and `snprintf` are taken to round correctly, to nearest with ties to even, and to use a point as in the C locale.
- JsonDocument.AcceptsExactlyTheGrammar: the texts of error messages are an enumeration of their kinds; which error is recorded first is modelled, its wording is not.
- JsonCompare.EqualIsEquality: numbers are doubles; a value built from an `int` and one built from an equal `double` are one value, as they are for the original's comparisons.
- Base64Codec.EncodeBase64: inputs whose encoded length does not fit in an `int` are excluded, as the original returns lengths as `int`.
- Base64Codec.DecodeBase64: inputs whose length does not fit in an `int` are excluded.
- Txn.TxnOpAppender.Visit: the object is built in key order as a value; the initializer lists have no repeated keys, so first-wins and last-wins insertion agree.
- KeyValues.ParseValues: a number that has no `uint64_t` makes the original's conversion undefined, which is an outcome of its own here; `load` fills a value, not an object in place.
- ClientPool.ClientPool.Acquire: its two parts follow one another here; what can happen between them is in the state machine. The outcome of the factory is a parameter, and one that makes a null client counts as a failure. Memory failure in `release` is a parameter.
- Query.MakeQuery: keyword names are made of unreserved characters, as C++ identifiers are; parameters of type `const char *` (only the TLS key password) are not printed in queries.
- The libcurl client, TLS options, response headers and cancellation (src/curl): foreign calls and I/O.
- Endpoint methods of agent, catalog, coordinate, health, kv, sessions and status: URL concatenation and a network call.
- The other field-by-field `load` functions and registration bodies, `txnParseErrors`, `has_shape`, `makeUrl`, `to_json` of durations, `Consul::stop` and the compile-time keyword checks: one-branch members.
