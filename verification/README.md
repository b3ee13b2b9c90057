# Verification of the ruby-pg codecs, allocators and caches

This project models the self-contained core of ruby-pg, the C extension under `ext/`, in Dafny and proves properties of
it. Run `dafny verify dfyconfig.toml` to check all of it.

What is modelled:

- Text formats. `Escape` has the escaping loops, forward and in place; `TextInteger` the integer coder; `TextFormat` the
  printing and parsing functions of nested arrays and records; `TextRoundTrip` the proof that parsing undoes printing for
  trees of coders, `TextLimits` that it does so for no other values, and `TextSoundness` what the parsers accept;
  `ArraySpellings` and `RecordSpellings` what they read of texts that others write, and `ArrayServer` what a server reads
  of the arrays that are printed here; `TextDecoders` and `TextEncoders` the loops of the source over their buffers,
  proved equal to those functions. `CopyText` has the rows of COPY in text format, with any delimiter and null string.
- Binary formats. `BinaryFields` has length-prefixed fields, `CopyBinary` the rows of binary COPY, `NestedArray` and
  `BinaryArray` the array format, `BinaryArrayEncoder` the two passes of its encoder and `BinaryArrayDecoder` the stack
  of open arrays of its decoder, in which an array is pushed into its parent before it is filled.
- `Base64` and `Calendar`: the two directions of each, with the reference definitions they have to meet.
- `QueryParams`: the allocator of query parameters, whose one counter serves a pool and the chunks behind it.
- `TypeMapByOid`, `TypeMapByClass` and `TypeMapChain`: the lookup caches, and what fitting a chain of type maps to a
  result may change.
- `ResultStream`: the ownership of libpq results while they are streamed through one result object.

Bytes are integers from 0 to 255, texts are sequences of them, and exceptions are results. Buffers, growing strings and
the objects whose fields the source updates are arrays and classes; each of their methods is proved against a function,
and the laws are proved about the functions. `RubyString`,
`FieldValues` and `Bytes` hold what they share.

Where the code does less than it promises, the model follows the code and says exactly when:

- A delimiter or a null string that the setters accept can break a format: `TextLimits.DelimiterExact`,
  `CopyText.FormatExact`.
- An array text with a quotation mark behind a sub-array is accepted, with bytes left over from the sub-array:
  `TextSoundness.LeftOver`. When that value can be read again is in `TextSoundness.ArrayAccepted`.
- A record text with too few columns, or nil ones too many, is accepted as well: `TextSoundness.Miscounted`,
  `TextSoundness.RecordAccepted`.
- A record or a COPY row without columns is read back with one: `TextLimits.ColumnsExact`, `CopyText.RowExact`.
- A binary COPY row can look like a file header, and its lengths are those of the first encoder pass:
  `CopyBinary.Collision`, `CopyBinary.DecodeEncode`.
- An empty array inside of an array is lost in the binary format: `BinaryArray.DecodeEncode`.
- Dates before 1 March -4800 are wrong or not inverted: `Calendar.J2DateRight`, `Calendar.J2DateExact`,
  `Calendar.Date2JExact`.
- The row limit of a type map decides about refusal when a format is unknown: `TypeMapChain.FormatsDecide`.

## Model

| member | source | states |
|---|---|---|
| Bytes.Nbo16RoundTrip | ext/pg_util.h:9-12 | writing a 16-bit integer in network byte order and reading it gives it back, for every integer and for every two bytes |
| Bytes.Nbo32RoundTrip | ext/pg_util.h:14-19 | reading what was written for a signed 32-bit integer gives that integer, negative ones included |
| Bytes.Nbo32Canonical | ext/pg_util.h:37-42 | writing what was read from any four bytes gives those four bytes |
| Bytes.Nbo32Unsigned | ext/pg_util.h:14-19 | an unsigned number is written with its most significant byte first |
| Base64.DecodeEncode | ext/pg_util.c:18-120 | decoding the encoding of any byte string gives the byte string |
| Base64.EncodedAt | ext/pg_util.c:5-47 | every character of an encoded text is the letter of RFC 4648 for its six of the 24 bits of a group, or `=` where bits are missing |
| Base64.ForeignIsSkipped | ext/pg_util.c:49-116 | a byte outside of the alphabet changes nothing in what is decoded, wherever it stands |
| Base64.DecodeSize | ext/pg_util.h:57-58 | for any text the decoder gives no more bytes than `BASE64_DECODED_SIZE` reserves |
| Base64.EncodeBuffer | ext/pg_util.c:18-47 | the backward loop leaves the encoding of section 4 of RFC 4648 in the output buffer, also when it is the input buffer, and leaves the rest of the buffer as it was |
| Base64.StoreQuad | ext/pg_util.c:24-46 | the shifts of a 24-bit group store the group's four characters, the last ones replaced by padding |
| Base64.EncodingSize | ext/pg_util.c:36-46 | while groups are unread the write pointer stands at four bytes for each of them and the read pointer at three, derived from what is written already; so no unread byte is overwritten |
| Base64.DecodeBuffer | ext/pg_util.c:75-120 | for every input the decoder writes exactly the bytes packed from its alphabet characters, whether the fast or the skipping path reads them, in place or not, and touches nothing else |
| Base64.NextValue | ext/pg_util.c:95-101 | the skipping loops find the next character of the alphabet, or none exactly when the rest of the text is foreign |
| Base64.NextGroup | ext/pg_util.c:82-104 | the next four values, or the shorter tail, are those of the text without its foreign characters |
| Base64.StoreGroup | ext/pg_util.c:89-112 | the bytes stored for a group are those of its two, three or four values and no more |
| Base64.DecodingFits | ext/pg_util.c:70-116 | the write pointer is at most at the read pointer, and what is written never leaves the size that the macro reserves, both derived from the split into bytes done and text to come |
| Base64.DecodingStep | ext/pg_util.c:82-116 | a turn of the loop takes the values it read from the rest and appends their bytes to what is done |
| Escape.EscapeForward | ext/pg_copy_coder.c:268-278 | a finished string is copied with each special byte marked, and the end returned is that of the escaped text |
| Escape.EscapeInPlace | ext/pg_copy_coder.c:287-309 | the right-to-left loop over a text that stands unescaped at its start leaves exactly the left-to-right escape there, clobbers no unread byte and leaves the rest of the buffer as it was |
| Escape.SpreadByte | ext/pg_record_coder.c:266-271 | one turn of that loop moves a byte and its mark below the write pointer |
| Escape.SpreadRoom | ext/pg_record_coder.c:253-271 | the write pointer is ahead of the read pointer by the marks still to be placed, so it never reaches an unread byte |
| Escape.QuoteText | ext/pg_text_encoder.c:462-491 | the quoting loop stores the escaped text between quotation marks, for the same or for different buffers, and returns its length |
| Escape.CountSpecials | ext/pg_text_encoder.c:721-726 | the counting loop finds how many bytes need a mark |
| Escape.EscapedSize | ext/pg_copy_coder.c:281-302 | an escaped text is as long as the text and its marks, at most twice as long |
| Escape.EscapedByteIs | ext/pg_record_coder.c:228-236 | for each of the formats, which bytes are escaped and by what, in numbers |
| Escape.QuotedAt | ext/pg_text_encoder.c:475-491 | a quoted text stands between marks, and each of its bytes stands escaped behind the bytes before it |
| Escape.NothingToEscape | ext/pg_copy_coder.c:298-304 | without special bytes the escaped text is the text itself, so the loop may be skipped |
| Escape.LiteralIsRead | ext/pg_text_encoder.c:716-745 | a quoted literal in a query is one string constant with the original text, and ends where its closing quote is, whatever the text holds |
| TextInteger.DecodeEncode | ext/pg_text_decoder.c:104-158 | decoding the decimal text of any integer gives the integer, over the fast path or past it, with any parser of Ruby's that reads plain decimal numbers |
| TextInteger.DecodeIs | ext/pg_text_decoder.c:104-158 | up to 18 digits, with a minus sign or not, are read as their number whatever Ruby's parser does, and all other texts without zero bytes are read by that one |
| TextInteger.DecimalIs | ext/pg_text_encoder.c:165-211 | the text of an integer is a minus sign if it is negative and the digits of its amount, without zeros in front |
| TextInteger.SignedReads | ext/pg_text_decoder.c:157 | there is such a parser |
| TextInteger.FastMeaning | ext/pg_text_decoder.c:120-155 | the hand-made conversion accepts exactly an optional sign and digits, with their decimal value |
| TextInteger.DecodeFast | ext/pg_text_decoder.c:129-154 | the loop computes that conversion, and up to 18 characters no value leaves the range of immediate integers |
| TextInteger.DigitsPerBits | ext/pg_text_encoder.c:215-218 | a number has at most one digit for every three of its bits, and one more |
| TextInteger.EstimateSuffices | ext/pg_text_encoder.c:213-218 | the space the first pass asks for suffices for digits and sign, for every integer |
| TextInteger.EstimateIs | ext/pg_text_encoder.c:213-218 | that space is one byte for each three bits, and one or two more |
| TextInteger.EncodeInto | ext/pg_text_encoder.c:165-211 | the second pass leaves the decimal text at its place, within the space asked for, and nothing else changes |
| TextInteger.WriteDigits | ext/pg_text_encoder.c:185-193 | the loop stores the digits, lowest first, and at least one |
| TextInteger.ReverseInPlace | ext/pg_text_encoder.c:198-208 | swapping from both ends reverses the stretch and leaves the rest |
| TextInteger.LowFirstReversed | ext/pg_text_encoder.c:185-208 | the digits in the order they are produced, reversed, are the decimal text |
| TextRoundTrip.DecodeEncode | ext/pg_text_decoder.c:292-499 | for every tree of string, integer, record and array coders and every value that conforms, encoding succeeds and decoding its text gives the value back; values conform without zero bytes, and with them where the byte gets quotes in an array |
| TextRoundTrip.EncodeClean | ext/pg_text_encoder.c:545-619 | encoding such a value succeeds and puts no zero byte into the text if the value has none |
| TextRoundTrip.ListRun | ext/pg_text_decoder.c:292-395 | wherever the text of a nested array stands, the recursive parser reads its items and stops at its closing brace, whatever the shared scratch buffer holds |
| TextRoundTrip.BodyRun | ext/pg_text_decoder.c:321-391 | the parser reads the items of a level one by one and continues behind each of their delimiters |
| TextRoundTrip.ItemRun | ext/pg_text_decoder.c:321-391 | one item, be it nil, a quoted or plain element or a sub-array, is read as what was printed |
| TextRoundTrip.QuotedItemRun | ext/pg_text_decoder.c:350-390 | a quoted item is collected unescaped, whatever braces, delimiters or words it holds |
| TextRoundTrip.UnquotedText | ext/pg_text_encoder.c:454-473 | text that is left unquoted holds no byte the parser gives a meaning and is not the word NULL in any case |
| TextFormat.CaseCompareIs | ext/pg_util.c:126-148 | the comparison finds no difference if and only if the texts are equal byte by byte in lower case |
| TextFormat.NullInAnyCase | ext/pg_text_encoder.c:457 | a text of four bytes is taken for the null word if and only if it spells it in any case |
| TextFormat.NeedsQuotesIs | ext/pg_text_encoder.c:454-473 | exactly these texts are quoted: the empty one, the word NULL in any case, and those with a quotation mark, a backslash, a brace, the delimiter or one of six bytes of white space |
| ArrayServer.ElementServed | ext/pg_text_encoder.c:447-497 | an element as it is printed is read by a server that drops white space around unquoted items as the text it was, and never as nil |
| ArrayServer.ServerReads | ext/pg_text_encoder.c:545-619 | whatever array is printed, such a server reads the nest of nil, elements and sub-arrays that was meant |
| TextRoundTrip.FieldsRun | ext/pg_record_coder.c:418-488 | the record parser reads the columns of a printed record one by one |
| TextRoundTrip.RecordRoundTrip | ext/pg_record_coder.c:377-498 | a record with columns comes back as it was |
| TextRoundTrip.ArrayRoundTrip | ext/pg_text_decoder.c:413-499 | an array, ragged ones with unset `dimensions` included, comes back as it was |
| TextRoundTrip.DecoratedRoundTrip | ext/pg_text_decoder.c:406-471 | dimension decorations in front of an array's text, any number of them, change nothing in what is decoded |
| TextLimits.DelimiterExact | ext/pg_coder.c:404-414 | arrays of strings round-trip for all values if and only if the delimiter, among all bytes the setter takes, is no quotation mark, brace or letter of NULL |
| TextLimits.DimensionsExact | ext/pg_text_encoder.c:545-592 | an array of strings is printed with `dimensions` set if and only if it has that many levels everywhere, with only innermost arrays empty, and otherwise always |
| TextLimits.ValuesExact | ext/pg_text_decoder.c:292-499 | for every tree of good coders and every value whatever: it comes back if and only if it conforms, that is, has the wanted depth and all columns, and its zero bytes are quoted in an array and not part of a record |
| TextLimits.ZerosShow | ext/pg_text_encoder.c:545-619 | a zero byte anywhere in a value is in its text |
| TextLimits.UnquotedZero | ext/pg_text_decoder.c:363-367 | an unquoted zero byte that is not the delimiter makes the array parser fail, wherever it stands |
| TextLimits.FieldZero | ext/pg_record_coder.c:427-461 | a zero byte makes the record parser fail, in quotes too |
| TextLimits.ListBack | ext/pg_text_decoder.c:292-395 | a level of printed text that is read as its items has only items that come back by themselves |
| TextLimits.FieldsBack | ext/pg_record_coder.c:418-488 | and so do the columns of printed record text |
| TextSoundness.DecodeTyped | ext/pg_text_decoder.c:292-499 | for every tree of coders, what is decoded of any text is nil, strings, integers and lists where the coders have elements, columns and nesting |
| TextSoundness.ItemsTyped | ext/pg_text_decoder.c:321-391 | every level of any array text gives items of the element decoder, nil and sub-arrays, whatever the shared scratch buffer held |
| TextSoundness.ColumnsTyped | ext/pg_record_coder.c:418-488 | each column of an accepted record is nil or a value of that column's decoder, for columns of every kind |
| TextSoundness.Accepted | ext/pg_text_decoder.c:292-499 | the value of any accepted text can be printed and read again if and only if it conforms, for every tree of good coders |
| TextSoundness.NestExact | ext/pg_text_encoder.c:545-619 | a nest of nil and strings or of nil and integers comes back if and only if it has the wanted depth and each string in it is free of zero bytes or gets quotes |
| TextSoundness.ArrayAccepted | ext/pg_text_decoder.c:292-499 | the value of any accepted text of an array of strings or integers, zero bytes and quotation marks anywhere included, can be printed and read again if and only if it has the wanted depth and each string in it is free of zero bytes or gets quotes; without `dimensions` the depth is right, and for integers nothing else is asked |
| TextSoundness.TidyAccepted | ext/pg_text_decoder.c:292-499 | so it can for every accepted text without zero bytes in which no quotation mark opens behind a sub-array |
| TextSoundness.ItemsConform | ext/pg_text_decoder.c:321-391 | every level of such a text gives items that come back, whatever the shared scratch buffer held |
| TextSoundness.LeftOver | ext/pg_text_decoder.c:350-391 | the text `{a{,}"x"}` has no zero byte and is accepted with one in its value, left in the scratch buffer by the sub-array, and this value does not come back |
| ArraySpellings.SpelledIsRead | ext/pg_text_decoder.c:413-499 | an array is read as what it spells however it is written: bare words, stretches in quotation marks anywhere in them, backslashes within, dimension bounds of digits, signs and colons and white space around; only the bare word NULL in capitals is nil |
| ArraySpellings.WordRun | ext/pg_text_decoder.c:321-391 | a word of bare bytes and quoted stretches is collected as its bytes, with a note whether anything was quoted |
| ArraySpellings.MoreIsRefused | ext/pg_text_decoder.c:488-496 | behind the closing brace anything but white space is refused |
| ArraySpellings.PrintedCut | ext/pg_text_decoder.c:292-395 | every printed array that is cut short is refused as ending too soon |
| ArraySpellings.ItemsCut | ext/pg_text_decoder.c:321-395 | on a shorter input the parser does the same as on the longer one up to the cut |
| TextSoundness.RecordAccepted | ext/pg_record_coder.c:377-498 | the value of any accepted record text, of strings, integers and records nested to any depth, can be printed and read again if and only if each record in it has as many columns as its coder |
| TextSoundness.Miscounted | ext/pg_record_coder.c:418-488 | `(a)` and `(a,,)` are accepted for a record of two columns, with one and with three |
| TextSoundness.RecordZeroless | ext/pg_record_coder.c:427-461 | no zero byte gets into the value of such a record text |
| RecordSpellings.SpelledIsRead | ext/pg_record_coder.c:377-498 | a record is read as what it spells however its columns are written: bare bytes, backslashes in and outside of quotes, doubled quotation marks, white space around; what follows is refused unless a zero byte hides it |
| RecordSpellings.RecordIsPrinted | ext/pg_record_coder.c:178-283 | a printed record has its columns in parentheses and separated by commas, nothing for nil, and each other between quotation marks with quotation marks doubled and backslashes too |
| RecordSpellings.PrintedCut | ext/pg_record_coder.c:418-488 | every printed record that is cut short is refused as ending too soon |
| TextLimits.ColumnsExact | ext/pg_record_coder.c:377-498 | for columns of every kind, a list comes back as a record if and only if there are columns, as many as items, and each item is nil or comes back by itself and has no zero byte |
| TextDecoders.DecodeValue | ext/pg_text_decoder.c:88-158 | the decoders as they run compute the parsing functions, with the same errors, for every text and every number parser of Ruby's |
| TextDecoders.ReadArray | ext/pg_text_decoder.c:413-499 | the array parser as it runs, with one scratch buffer for all levels, gives the parsing function's result for every text |
| TextDecoders.ReadWithoutDim | ext/pg_text_decoder.c:292-395 | the loop with its overloaded flags and its writes into the shared buffer gives the level, the position and the buffer of the parsing function, for every text and buffer |
| TextDecoders.FindBraces | ext/pg_text_decoder.c:428-471 | the scan over dimension decorations finds the opening brace or the same error |
| TextDecoders.StoreItem | ext/pg_text_decoder.c:326-349 | the end of an item stores nil, the decoded element, or nothing behind a sub-array |
| TextDecoders.ReadRecord | ext/pg_record_coder.c:377-498 | the record parser as it runs gives the parsing function's result for every text |
| TextDecoders.ScanField | ext/pg_record_coder.c:427-461 | the loop over one column collects its unquoted, undoubled text or reports the same error |
| TextEncoders.EncodeFirst | ext/pg_text_encoder.c:119-223 | the first pass of each coder gives the whole text, or a size that suffices for the second pass, or the encoding function's error |
| TextEncoders.WriteArray | ext/pg_text_encoder.c:545-592 | the recursive printer appends exactly the text of the list to the growing output string, or fails as the encoding function does |
| TextEncoders.WriteItem | ext/pg_text_encoder.c:557-588 | an entry is appended as a sub-array, as NULL, or as an element, at the depth `dimensions` allows |
| TextEncoders.QuoteElement | ext/pg_text_encoder.c:500-542 | an element of one or of two passes is appended quoted where it needs quotes |
| TextEncoders.QuoteArrayBuffer | ext/pg_text_encoder.c:447-497 | the element is stored quoted if and only if it is ambiguous unquoted, in place or into another buffer |
| TextEncoders.DetectQuotes | ext/pg_text_encoder.c:454-473 | quoting is found needed exactly for empty texts, the word NULL in any case, and texts with a byte that the parser gives a meaning |
| TextEncoders.CompareNull | ext/pg_util.c:126-148 | the loop computes the case-insensitive comparison with the word NULL |
| TextEncoders.EncodeRecord | ext/pg_record_coder.c:178-283 | the record printer as it runs gives the text of the record or the encoding function's error |
| TextEncoders.WriteField | ext/pg_record_coder.c:213-274 | a column is appended as nothing for nil, and quoted and doubled otherwise |
| TextEncoders.PutInteger | ext/pg_record_coder.c:240-273 | a column of two passes, escaped over itself, is the same text as a finished one |
| RubyString.OutString.EnsureCapa | ext/pg.c:214-227 | afterwards the reserved memory suffices and the contents are as before, moved or not |
| CopyText.DecodeEncode | ext/pg_copy_coder.c:560-729 | with a good delimiter and null string every row with columns comes back, any byte and nil included |
| CopyText.DecodeRead | ext/pg_copy_coder.c:560-729 | with a null string that stands alone, whatever else it is, a row comes back but for strings that are printed like it, which are read as nil |
| CopyText.ScanNull | ext/pg_copy_coder.c:560-696 | the scan of a column ends behind the null string if it reaches no delimiter or line feed in it and leaves no escape sequence open, and otherwise elsewhere in front of a delimiter |
| CopyText.ScanSpelled | ext/pg_copy_coder.c:597-692 | a column is read the same however each of its bytes is spelled: escaped, bare, by its octal or hexadecimal code, or by a letter |
| CopyText.LineIsRead | ext/pg_copy_coder.c:560-729 | a line is read as the columns that are written in it, in any of these spellings, and what follows its line end is refused |
| CopyText.ServerRowIsRead | ext/pg_copy_coder.c:560-729 | every row as the server writes it, with letters for the bytes from 8 to 13, is read as the row that was sent |
| CopyText.LetterSequence | ext/pg_copy_coder.c:664-686 | behind a backslash b, t, n, v, f and r are the bytes from 8 to 13, and every other byte stands for itself |
| CopyText.OctalSequence | ext/pg_copy_coder.c:600-634 | up to three octal digits are their number in the base of 8, of which one byte is kept |
| CopyText.HexSequence | ext/pg_copy_coder.c:637-663 | x stands for itself without a hexadecimal digit, and otherwise for the number of one or two of them in either case |
| CopyText.MoreIsRefused | ext/pg_copy_coder.c:694-695 | bytes behind the line end of a printed row are refused |
| CopyText.SameTextIs | ext/pg_copy_coder.c:700-701 | the comparison with the null string finds no difference if and only if the texts agree up to their end or to a zero byte |
| CopyText.EscapedIsNotNull | ext/pg_copy_coder.c:698-702 | no string is printed as the null string, as `strncmp` compares them, unless the null string is like a printed one up to its first zero byte |
| CopyText.OneLine | ext/pg_copy_coder.c:236-320 | in every printed row the only line end that no backslash escapes is the last byte, if and only if the delimiter is neither of these marks and the null string has no line end and leaves no backslash open |
| CopyText.AloneIsClosed | ext/pg_copy_coder.c:251-256 | null strings that stand alone are such |
| CopyText.NoReturn | ext/pg_copy_coder.c:268-278 | nor is there a carriage return without a backslash, unless the delimiter or the null string brings it |
| CopyText.FormatExact | ext/pg_copy_coder.c:96-134 | over all delimiters and null strings that the setters take: all rows round-trip if and only if the delimiter has no meaning in escape sequences, the null string stands alone and no string is printed like it |
| CopyText.DelimiterExact | ext/pg_copy_coder.c:96-105 | with the default null string all rows round-trip if and only if the delimiter is none of backslash, line feed, octal digits, `N` and the letters with a meaning behind a backslash |
| CopyText.RowExact | ext/pg_copy_coder.c:236-320 | a row comes back if and only if it has columns and none of its strings is printed like the null string, the empty null string included |
| CopyText.EncodeRow | ext/pg_copy_coder.c:218-320 | the printer as it runs, with columns of one and of two passes, gives the text of the row for every delimiter and null string |
| CopyText.WriteColumn | ext/pg_copy_coder.c:251-310 | one- and two-pass columns append the same escaped text |
| CopyText.DecodeRow | ext/pg_copy_coder.c:524-729 | the parser as it runs gives the parsing function's row or error for every text, delimiter and null string |
| CopyText.ReadEscape | ext/pg_copy_coder.c:597-687 | octal, hexadecimal, letter and other escapes are read with the bytes they stand for and where they end |
| BinaryFields.ColumnRun | ext/pg_binary_decoder.c:237-262 | a field on the wire is read as it was written, up to where it ends |
| BinaryFields.ColumnBytesAre | ext/pg_copy_coder.c:401-436 | a field is four bytes of 255 for nil, and otherwise its length, most significant byte first, and its data |
| BinaryFields.ColumnsRun | ext/pg_copy_coder.c:850-883 | so are any number of them, one behind the other |
| BinaryFields.ColumnSound | ext/pg_copy_coder.c:850-866 | whatever is accepted as a field is exactly the wire form of what was read |
| BinaryFields.ColumnsSound | ext/pg_copy_coder.c:850-883 | and the same for any number of fields |
| BinaryFields.ColumnsCut | ext/pg_copy_coder.c:850-866 | fields that are cut short anywhere are refused |
| CopyBinary.DecodeEncode | ext/pg_copy_coder.c:367-443 | up to 32767 elements come back if and only if each first pass gave the length the second wrote, and the row has not the shape of a header |
| CopyBinary.DecodeWire | ext/pg_copy_coder.c:814-891 | a row's wire form is decoded to the row if and only if the row has not that shape |
| CopyBinary.LooksLikeHeader | ext/pg_copy_coder.c:814-830 | a row begins with the signature if and only if it has 0x5047 columns, the first of them of 0x434F5059 bytes that go on like the signature |
| CopyBinary.Collision | ext/pg_copy_coder.c:814-830 | there is such a row, and it does not come back |
| CopyBinary.BehindHeader | ext/pg_copy_coder.c:814-830 | with any header in front every row is decoded to itself, the colliding ones included |
| CopyBinary.DamageIsNoticed | ext/pg_copy_coder.c:832-891 | each proper prefix of a row's wire form is refused, and so is each extension |
| CopyBinary.DamageBehindHeader | ext/pg_copy_coder.c:814-891 | the same behind a header, and for a header that is cut itself |
| CopyBinary.DecodeSound | ext/pg_copy_coder.c:814-891 | whatever is accepted as a row is, behind the header, exactly the wire form of that row |
| CopyBinary.TrailerExact | ext/pg_copy_coder.c:836-848 | the data ends with a row of two bytes of 255, and with that one only, behind a header or not |
| CopyBinary.RowStartIs | ext/pg_copy_coder.c:814-830 | a row begins behind the eleven bytes of the signature, four of flags and the extension with its length, or else at the start |
| CopyBinary.CountIs | ext/pg_copy_coder.c:376-392 | up to 32767 columns are printed, behind their number |
| CopyBinary.EncodeRow | ext/pg_copy_coder.c:376-443 | the printer as it runs gives the count, and length and bytes of each column, or refuses more than 32767 columns |
| CopyBinary.DecodeRow | ext/pg_copy_coder.c:783-891 | the parser as it runs gives the parsing function's row, trailer or error for every text |
| CopyBinary.ReadFields | ext/pg_copy_coder.c:850-883 | its loop reads the fields or reports the same error |
| NestedArray.CollectSize | ext/pg_binary_encoder.c:345-366 | a rectangular nested array has as many elements as its sizes multiply to |
| NestedArray.RowMajor | ext/pg_binary_encoder.c:396-432 | the element at a path of indices stands where the sizes say when the last index changes first |
| NestedArray.CollectUnique | ext/pg_binary_decoder.c:225-278 | two nested arrays of one shape with the same elements in row-major order are the same |
| NestedArray.BuildCollect | ext/pg_binary_decoder.c:225-278 | the nested array built of a shape and elements has that shape and those elements in row-major order |
| BinaryArray.EncodeAccepts | ext/pg_binary_encoder.c:345-370 | the encoder takes an array if and only if it is empty or rectangular with at most six dimensions, as deep as `dimensions` says or as its first entries go |
| BinaryArray.DecodeEncode | ext/pg_binary_encoder.c:335-433 | over any element coder, an array that is taken comes back if and only if it is empty, or no array in it is empty and its elements are counted by a 32-bit integer |
| BinaryArray.EmptyInside | ext/pg_binary_decoder.c:207-226 | an array holding an empty array is written with the sizes 1 and 0 and read back as an empty array |
| BinaryArray.EncodedIs | ext/pg_binary_encoder.c:372-433 | the bytes of an encoded array: number of dimensions, flag 1, OID of the elements, each size with 1 as its lower bound, and the fields, that of a path where row-major order puts it |
| BinaryArray.DecodeExact | ext/pg_binary_decoder.c:183-279 | exactly those bytes are accepted that have up to six dimensions, a flag of 0 or 1, sizes with a 32-bit product all along, and as many fields as they multiply to; OID and lower bounds may be anything |
| BinaryArray.DecodeSound | ext/pg_binary_decoder.c:183-279 | for whatever bytes are accepted, the declared sizes multiply to a 32-bit integer, the rest is exactly that many fields, and the result has the declared shape with their values in row-major order |
| BinaryArray.DimsRun | ext/pg_binary_decoder.c:207-221 | written sizes are read back, and refused if and only if a product leaves 32 bits, as long as all are positive |
| BinaryArrayEncoder.Dimensions | ext/pg_binary_encoder.c:345-370 | the loop down the first entries finds the sizes or the same error |
| BinaryArrayEncoder.DescendChecked | ext/pg_binary_encoder.c:454-464 | going down to an innermost array changes nothing in the elements still to come in row-major order, and fails where the shape does |
| BinaryArrayEncoder.Descend | ext/pg_binary_encoder.c:396-399 | the second pass goes down to the same array without checks |
| BinaryArrayEncoder.Ascend | ext/pg_binary_encoder.c:424-432 | going up moves to the next sibling and leaves exactly the elements above still to come; it finishes if there are none |
| BinaryArrayEncoder.Advanced | ext/pg_binary_encoder.c:424-432 | the positions grow lexicographically with each innermost array, so the walk ends |
| BinaryArrayEncoder.Measure | ext/pg_binary_encoder.c:434-504 | the first pass visits the elements in row-major order, fails exactly when the encoding does, and gives the size and the intermediates in that order |
| BinaryArrayEncoder.MeasureRow | ext/pg_binary_encoder.c:466-490 | the elements of an innermost array add their size and their pairs of intermediates |
| BinaryArrayEncoder.SpaceSuffices | ext/pg_binary_encoder.c:466-504 | the first pass asks for at least what the second writes, and for exactly that when the element encoders do |
| BinaryArrayEncoder.Write | ext/pg_binary_encoder.c:372-433 | given the first pass's intermediates, the second pass writes exactly the encoding within the size asked for, and changes nothing else |
| BinaryArrayEncoder.WriteRow | ext/pg_binary_encoder.c:401-421 | the elements of an innermost array take their intermediates in the order they were stored |
| BinaryArrayEncoder.WriteItem | ext/pg_binary_encoder.c:404-420 | an element's bytes are stored behind the place of their length, and then the length |
| BinaryArrayEncoder.EncodeArray | ext/pg_coder.c:202-216 | both passes together give the encoding of the array, or its error |
| BinaryArrayDecoder.DecodeArray | ext/pg_binary_decoder.c:158-283 | the loop over a stack of open arrays, each pushed into its parent before it is filled, leaves the decoded nested array in the store, or gives the same error, for every text |
| BinaryArrayDecoder.HeaderOf | ext/pg_binary_decoder.c:183-221 | the header is read with 64-bit products cut to 32 bits, and refused exactly when a product is no 32-bit integer |
| Bytes.TruncateFinds | ext/pg_binary_decoder.c:213-217 | cutting a product to 32 bits changes it if and only if it does not fit |
| BinaryArrayDecoder.StoredOnce | ext/pg_binary_decoder.c:223-234 | what a store holds at an address is one value |
| BinaryArrayDecoder.OpenDown | ext/pg_binary_decoder.c:229-234 | opening a new array keeps all arrays on the stack and what is complete in them |
| BinaryArrayDecoder.OpenUp | ext/pg_binary_decoder.c:274-277 | leaving a complete array makes it one more value of its parent, which referred to it all along |
| BinaryArrayDecoder.Missing | ext/pg_binary_decoder.c:225-278 | as long as every open array has room, elements are missing, so the stack is empty when all are read |
| BinaryArrayDecoder.GoDown | ext/pg_binary_decoder.c:229-234 | the loop down opens arrays to the innermost dimension and keeps the elements gathered |
| BinaryArrayDecoder.GoUp | ext/pg_binary_decoder.c:274-277 | the loop up closes exactly the complete arrays and keeps the elements gathered |
| Calendar.JulianDateOf | ext/pg_binary_decoder.c:356-378 | from 1 March -4800 on every day number is turned into a valid date of the calendar, and `date2j` turns it back |
| Calendar.DateOfJulian | ext/pg_binary_encoder.c:230-252 | every valid date from 1 March -4800 on comes back from its day number |
| Calendar.DayByDay | ext/pg_binary_decoder.c:356-378 | the next number is the next day of the calendar |
| Calendar.NextDayIsOneMore | ext/pg_binary_encoder.c:230-252 | the next day has the next number |
| Calendar.Epoch | ext/pg_binary_encoder.c:228-252 | the first day is number -32044, and 1 January 2000 is number 2451545 |
| Calendar.FourYears | ext/pg_binary_decoder.c:367-377 | the multiplications and shifts for a cycle of four years find year, month and day |
| Calendar.Centuries | ext/pg_binary_decoder.c:363-366 | the shifts for 400 years and centuries take exactly the days of their missing leap years off |
| Calendar.Months | ext/pg_binary_decoder.c:375-377 | multiplying by 2141 inverts the month table that multiplying by 7834 gives |
| Calendar.J2DateExact | ext/pg_binary_decoder.c:356-378 | over all 32-bit numbers, with the wrap-around of C in both functions, `date2j` undoes `j2date` if and only if the number is at least -32044 or at most -120297 |
| Calendar.J2DateRight | ext/pg_binary_decoder.c:356-378 | over all 32-bit numbers, `j2date` gives the date that has the number in the calendar if and only if the number is at least -32044 |
| Calendar.FarBeforeFirst | ext/pg_binary_decoder.c:358-363 | numbers up to -120297 are given the dates of the numbers 2 to the power of 32 further on |
| Calendar.ShortlyBeforeFirst | ext/pg_binary_decoder.c:358-377 | numbers between these bounds are given dates of other 32-bit numbers |
| Calendar.Date2JExact | ext/pg_binary_encoder.c:230-252 | over all valid dates with 32-bit numbers, `j2date` undoes `date2j` if and only if the date is not before 1 March -4800 |
| Calendar.LeapDayCollides | ext/pg_binary_encoder.c:246-249 | truncating division gives 29 February -4800 the number of the next day |
| Calendar.J2DateInRange | ext/pg_binary_decoder.c:358-377 | from 1 March -4800 up to the largest number nothing wraps around |
| Calendar.Date2J | ext/pg_binary_encoder.c:230-252 | the statements, each with wrap-around, leave the day number as a 32-bit integer, and none of them wraps around where the caller can count from 2000 |
| Calendar.J2Date | ext/pg_binary_decoder.c:356-378 | the statements, with unsigned wrap-around, compute the date for every 32-bit number |
| Calendar.DecodeEncodeDate | ext/pg_binary_decoder.c:389-410 | in the binary format both infinities come back, and a date if and only if it is not before 1 March -4800 |
| Calendar.DaysAreSent | ext/pg_binary_encoder.c:262-311 | a date is sent as the number of days to it from 1 January 2000, counted over the calendar, and the infinities as the largest and smallest number |
| Calendar.DaysAreReceived | ext/pg_binary_decoder.c:389-410 | four bytes are received as the date so many days from 1 January 2000, or as an infinity |
| QueryParams.CounterIsSound | ext/pg_connection.c:1388-1406 | with bytes left plus counter at least the pool size, a value that the counter admits fits at the write pointer, and the invariant is kept, in the pool or in a new chunk |
| QueryParams.AlwaysFits | ext/pg_connection.c:1388-1406 | so over every run of values each fits where it is written, also into what an over-estimated chunk has left |
| QueryParams.OneMore | ext/pg_connection.c:1322-1409 | an entry at the write pointer keeps all values apart from each other and from the parameter arrays |
| QueryParams.AllStillPlaced | ext/pg_connection.c:1388-1406 | writing behind the write pointer and adding chunks leaves what was placed where it is |
| QueryParams.ParamsData.AddChunk | ext/pg_connection.c:1255-1273 | a new chunk of its own is added and all memory is as before |
| QueryParams.ParamsData.WriteValue | ext/pg_connection.c:1393-1406 | the second pass, and for text format a zero byte, are all that changes, in the last buffer |
| QueryParams.ParamsData.PlaceWritten | ext/pg_connection.c:1387-1407 | a value in the last buffer or in a new chunk keeps the invariant and all earlier values |
| QueryParams.ParamsData.Alloc | ext/pg_connection.c:1288-1414 | it fails exactly for a text parameter with a zero byte; otherwise the four parameter arrays stand one behind the other with 8, 4, 4 and if wanted 4 bytes for each parameter, in the pool if they end within its 4000 bytes, every parameter has its format and type, every value is intact at its pointer and terminated in text format, values do not overlap, and none of them touches the arrays |
| QueryParams.PlacedIs | ext/pg_connection.c:1331-1407 | what libpq is given for a parameter: format and type of the coder, or else those that a hash names, or else text without a type; nil, the string itself, or the written bytes with a zero byte behind them in text format |
| QueryParams.ApartIs | ext/pg_connection.c:1387-1407 | two written values in one buffer never share a byte, terminators included |
| QueryParams.RefusedIs | ext/pg_connection.c:1371-1374 | exactly a string that is used directly in text format, with a zero byte in it, is refused |
| TypeMapByOid.TypeMap.LookupOid | ext/pg_type_map_by_oid.c:36-55 | the cached lookup answers what the hash holds, for OID 0 and OIDs of the same slot too, and the caches stay in agreement |
| TypeMapByOid.TypeMap.AddCoder | ext/pg_type_map_by_oid.c:238-257 | a coder is entered into the hash of its format, other OIDs are unaffected and the caches stay in agreement |
| TypeMapByOid.TypeMap.RmCoder | ext/pg_type_map_by_oid.c:272-292 | a coder is removed and returned, the caches stay in agreement, also when the number wraps around as an OID |
| TypeMapByOid.TypeMap.Run | ext/pg_type_map_by_oid.c:36-292 | over every run of additions, removals and lookups the map answers as the hashes alone do |
| TypeMapByOid.AnswersAre | ext/pg_type_map_by_oid.c:238-292 | over every run on a new map a lookup or removal answers with the coder that was added last for the format and the OID, if it was not removed since |
| TypeMapByOid.TypeMap.BuildColumns | ext/pg_type_map_by_oid.c:59-86 | a column map holds for each column what the hashes hold, or is refused |
| TypeMapByOid.ColumnsAt | ext/pg_type_map_by_oid.c:74-82 | it is refused if and only if a format is unknown |
| TypeMapByClass.TypeMap.LookupKlass | ext/pg_type_map_by_class.c:34-92 | the cached lookup gives the coder of the search along the ancestors, or what Ruby code answers, and in the latter case leaves the cache as it was |
| TypeMapByClass.TypeMap.FullLookup | ext/pg_type_map_by_class.c:47-60 | the loop gives the class's own assignment or that of its first ancestor with one, leaving out the first element |
| TypeMapByClass.TypeMap.Aset | ext/pg_type_map_by_class.c:204-221 | an assignment or removal is entered and the cache agrees with the search again |
| TypeMapByClass.TypeMap.ClearCache | ext/pg_type_map_by_class.c:145-147 | an empty cache agrees with every hash |
| TypeMapByClass.TypeMap.Run | ext/pg_type_map_by_class.c:34-221 | over every run of assignments, lookups and compactions the map finds what the search without a cache finds |
| TypeMapByClass.LookupIs | ext/pg_type_map_by_class.c:34-92 | over every run on a new map a lookup finds what was assigned last to the first class that has an assignment, of the class itself and its ancestors without the first |
| TypeMapByClass.FirstInIs | ext/pg_type_map_by_class.c:54-59 | the search finds the first class that has an assignment, and nothing if and only if none has |
| TypeMapByClass.FurtherOff | ext/pg_type_map_by_class.c:54-59 | an assignment behind the first hit changes nothing |
| TypeMapChain.FittedSelectsTheSame | ext/pg_type_map_by_oid.c:121-154 | a chain of type maps fitted to a result selects for each cell what the chain itself selects, by either way of fitting |
| TypeMapChain.FirstDecides | ext/pg_type_map_by_oid.c:91-118 | the first map of the chain that has a coder for the cell's column decides, or the last map if none has one |
| TypeMapChain.NilIsNil | ext/pg_type_map_by_oid.c:97-99 | nil needs no coder |
| TypeMapChain.FitsExactly | ext/pg_type_map_by_column.c:16-48 | a chain fits exactly when it ends in a map for results, its column maps have as many columns as the result, and formats are known where a map by OID is replaced |
| TypeMapChain.FittedAt | ext/pg_type_map_by_oid.c:121-154 | each map of a fitted chain is the one it was, or for more rows than its limit the column map with the coders of its hashes |
| TypeMapChain.LimitIsOnlySpeed | ext/pg_type_map_by_oid.c:131-153 | chains that differ in their row limits only select the same for each cell of a result |
| TypeMapChain.FormatsDecide | ext/pg_type_map_by_oid.c:78-79 | whether a chain fits is independent of the limits if and only if the result's formats are known |
| TypeMapChain.FittedOnce | ext/pg_type_map_by_column.c:16-48 | a fitted chain fits the same result again and stays what it is |
| TypeMapChain.FittedDoesNotRaise | ext/pg_type_map_by_column.c:85-113 | for known formats a fitted chain has a selection for each cell |
| TypeMapChain.FitLive | ext/pg_type_map_by_oid.c:121-154 | fitting through the caches of all maps of a chain gives the chain that the hashes alone give, and leaves every cache in agreement with its hashes |
| TypeMapChain.SelectLive | ext/pg_type_map_by_oid.c:91-118 | selecting a cell through the caches of all maps of a chain gives what the hashes alone give |
| ResultStream.YieldsInOrder | ext/pg_result.c:1578-1642 | under a block that neither raises nor clears, a finished stream has yielded the concatenation of the results' rows in order, for hashes, arrays and tuples alike |
| ResultStream.FinishesAtEnd | ext/pg_result.c:1594-1600 | a stream can only finish at an empty terminal result behind results that stream with the same number of fields |
| ResultStream.FinishedStream | ext/pg_result.c:1578-1642 | under such a block it finishes if and only if there is one |
| ResultStream.CalmRun | ext/pg_result.c:1594-1642 | under such a block the first result that does not stream with the fields of the first one decides how the stream ends, by its status and rows |
| ResultStream.RowsExact | ext/pg_result.c:1523-1573 | whatever the block does, the rows of a result are yielded in order up to the row at which it raises, a row cannot be converted, or a hash is read from a cleared result; rows of arrays are empty behind a clear |
| ResultStream.Session.constructor | ext/pg_result.c:237-255 | a new result has one owner, and its memory is accounted |
| ResultStream.Session.Clear | ext/pg_result.c:143-154 | clearing a wrapper clears its result unless there is none, takes back its memory, and keeps the books in order |
| ResultStream.Session.TakeOver | ext/pg_result.c:258-269 | a copy becomes the only owner of result and memory |
| ResultStream.Session.Receive | ext/pg_result.c:1630-1634 | a received result gets the wrapper as its owner, which must have none |
| ResultStream.Session.YieldRow | ext/pg_result.c:1523-1573 | a row is read through the wrapper and passed on; once cleared, hashes cannot be read and arrays hold nils |
| ResultStream.Session.YieldFrom | ext/pg_result.c:1523-1573 | the yielders pass on exactly the rows the run specifies, for every reaction of the block |
| ResultStream.Session.Yield | ext/pg_result.c:1556-1573 | tuples take the result over, hashes and arrays leave it to be cleared |
| ResultStream.Session.Check | ext/pg_result.c:1597-1617 | statuses and numbers of fields end the stream as specified, and a changed number clears the result first |
| ResultStream.Session.Next | ext/pg_result.c:1619-1634 | a streaming result's rows are yielded and the next result is received, which replaces none |
| ResultStream.Session.Stream | ext/pg_result.c:1578-1642 | for every sequence of results and every block the yielded rows and the ending are those specified, and each live result keeps exactly one owner, is cleared at most once, and the accounted memory is the owners'; when it finishes and the block leaves results alone, each result that was streamed has been cleared once, or for tuples belongs to a copy of its own |
| ResultStream.Session.FreeAll | ext/pg_result.c:156-162 | when all wrappers are freed every result has been cleared exactly once and no memory is accounted |

## Left out

- libpq, sockets, polling and SSL: what libpq returns is any sequence of results, and sending a query is outside of the model.
- Ruby: conversions with `to_s` and `to_i`, string encodings, freezing, garbage collection apart from what it frees, and coders or type maps written in Ruby.
- TextInteger.Decode: Ruby's own number parser is a parameter, any function from texts to integers; the laws ask of it that it reads plain decimal numbers.
- TextSoundness.ArrayAccepted: elements are strings or integers; for arrays of records or arrays, and for records with array columns, the condition is the one of `TextSoundness.Accepted`.
- TextSoundness.TidyAccepted: strings or integers without `dimensions`.
- TextEncoders.WriteArray: the default `needs_quotation` only; without quoting an array text is ambiguous by design.
- TextDecoders.ReadArray: a malformed text is an error, as with the flag FORMAT_ERROR_TO_RAISE; what else the code returns for malformed text without that flag, as by default, is not modelled. Texts that are accepted here are decoded alike with every flag.
- TextRoundTrip.RecordRoundTrip: columns are mapped by position; a record under the map of all strings is not modelled.
- CopyText.EncodeRow: the element encoders are given by their texts and sizes; a second pass that writes more than the first asked for is outside of their contract.
- Base64.EncodeBuffer: lengths are unbounded; sizes that overflow a C int are not modelled. The same holds for the sums of sizes in the other encoders.
- BinaryArray.Encode: takes Ruby arrays; other values are passed through as strings by the code. Exceptions of element coders are not modelled.
- BinaryArrayEncoder.Write: `dimpos` beyond the last dimension is uninitialised in the code and zero here; it is never read.
- Calendar.Date2J: signed additions are taken to wrap around where they overflow; years above 2147478847, for which the year itself wraps around, are not related to a day number.
- Calendar.DecodeDate: the addition of the epoch overflows in C for dates more than 2145032102 days after 2000; it is taken to wrap around here.
- QueryParams.ParamsData.Alloc: the parameter arrays are kept as entries and their bytes in the pool as a reserved region; the array of strings kept alive for the garbage collector is not modelled.
- TypeMapByOid.TypeMap.Run: one map at a time; the copy that shares its hash with the original when a default map was replaced is not modelled.
- TypeMapByClass.TypeMap.Run: the class hierarchy is fixed, and Ruby code that is asked for a coder does not change the map.
- TypeMapChain.Fit: maps written in Ruby, by class and by MRI type are not part of chains for results, except as maps that refuse them.
- ResultStream.Session.Stream: results that libpq frees by itself (`autoclear`) are not streamed, and blocks do not start another query on the connection.
- Coders for float, numeric, inet, timestamp, bytea, boolean, identifier and the other integer formats: floating point, library calls or easy members.
- The two-pass branch of the binary encoder from Base64.
- Plain accessors of results and connections, error classes and encoding tables.
