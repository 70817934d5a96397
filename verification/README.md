# A verified model of ruzor

ruzor is a client and a server for spam digests that speak a signed, line-based UDP protocol. This project models its
hand-written logic in Dafny and proves what that logic is for:

- **Dates.** The calendar conversion is exact for every integer day, and printed timestamps read back (`LocalTime`).
- **Records.** The stored texts of a record, the store's file and the Redis fields give the record back, with the exact
  conditions under which they do not (`Records`, `FileStore`, `RedisProtocol`).
- **Digests.** From the bytes of a message to the hash: MIME parts, the walk over nested multiparts, transfer decoders,
  the HTML machine, line normalisation, line selection, SHA-1 (`Mime`, `MimeLaws`, `Payloads`, `Leaves`,
  `Composition`, `Narrow`, `Growth`, `Transfer`, `Html`, `HtmlLaws`, `Multipart`, `Predigest`, `Fips180`, `Sha1`).
- **Requests.** A signed request survives printing, sending, cleaning and parsing, and is accepted exactly while the
  clocks agree; a response survives its way back exactly when the thread it echoes is one line (`Headers`, `Messages`,
  `Accounts`, `Clients`, `PacketSize`, `Responses`, `LineEnds`).
- **Stores and server.** The three batch updates agree; after any run of packets a record tells how often, when first
  and when last its digest was accepted (`Engines`, `Server`, `Access`).
- **Batches and threads.** Batching keeps the counts; the forwarder neither loses nor repeats what it accepted; the
  thread limiter keeps its bound and loses no wake-up (`Batching`, `Forwarders`, `ThreadLimiters`).

The formats themselves are fixed by laws that do not use the functions they are about, and by the values of the program's
own unit tests, up to the digest of a whole message (`Vectors`, `Sha1Vector`).

Objects whose methods change them are classes, loops are methods with invariants, and each such method is proved equal
to a function of its inputs or of the old state; the lemmas are about these functions. Concurrent parts are state
machines with one action for each step that another thread can come between. `Text` and `Utf8` hold the parts of Rust's
library that the code relies on, with laws of their own. Readings of the clock, drawn thread ids, the charset library,
Unicode lower case and the reading of a version number as a floating point number are parameters.

Where the code differs from what one would expect, the model follows the code and says exactly when:

- A timestamp before year 0 is printed with a leading minus sign and then read as no date at all.
- The Redis fields store a missing time as 0, so a time that is the epoch itself comes back as missing. HINCRBY fails
  where the other stores stop counting.
- A multipart boundary that ends in white space never matches, because delimiter lines are trimmed and the boundary is not.
- Text before the first "From " line of an mbox file becomes part of the first message.
- The two windows of lines overlap when exactly five or six lines are usable, and the second one is cut short at five.
- Payloads can hold more characters than the message: one UTF-8 character read as Latin-1 is two. They hold no more than
  the message, however nested, when each text leaf is read as ASCII or UTF-8, or decodes to no more bytes, or from the
  charset library to no more characters, than its body has characters; for a leaf that is not HTML this is also needed.
- An ampersand entity that is followed by the rest of another entity is unescaped twice, and yields that character.
- A digest that holds a tab or a line feed, which a packet can carry, is lost when the store's file is opened again.
- A Thread header continued on a second line comes back in the response as a line of its own.
- A request is received whole only up to 8192 bytes; a batch of up to 150 digests of 40 bytes stays below that.
- The time window of a signature is computed with wrapping 64-bit arithmetic; `Accounts.FreshExactly` draws it exactly.

## Model

| member | source | states |
|---|---|---|
| LocalTime.EpochIsDayZero | src/local_time.rs:185-196 | day 0 is 1970-01-01 |
| LocalTime.CivilFromDaysNext | src/local_time.rs:185-196 | for every integer d, the date of day d + 1 is the proleptic Gregorian next day of the date of day d |
| LocalTime.CivilFromDaysThenBack | src/local_time.rs:185-206 | every day's date is valid, and its day number is the day again |
| LocalTime.DaysFromCivilThenBack | src/local_time.rs:185-206 | every valid date is the date of its day number |
| LocalTime.DaysFromCivilNext | src/local_time.rs:198-206 | the next day's number is one more |
| LocalTime.UtcComponentsThenBack | src/local_time.rs:175-183 | the UTC components of any timestamp are valid and name that timestamp |
| LocalTime.TimestampThenBack | src/local_time.rs:175-206 | valid UTC components are those of the timestamp they name |
| LocalTime.UtcStepsFitI64 | src/local_time.rs:175-196 | no intermediate of the conversion leaves i64 for any i64 timestamp |
| LocalTime.YearZero | src/local_time.rs:175-196 | the year is negative exactly before the first second of year 0 |
| LocalTime.ParseFormatted | src/local_time.rs:33-63 | a printed timestamp reads back as itself from year 0 on, and as nothing before |
| LocalTime.FormatShape | src/local_time.rs:33-40 | up to the year 9999 a printed timestamp has nineteen characters, which read as year, month, day, hour, minute and second of its UTC components |
| LocalTime.FractionIgnored | src/local_time.rs:42-63 | a fraction of a second is read over |
| LocalTime.NoDatetime | src/local_time.rs:42-63 | without the blank, or without three numbers on each side, nothing is read |
| LocalTime.DateStepsFitI64 | src/local_time.rs:198-206 | no intermediate of days_from_civil leaves i64 for any year that an i64 timestamp can have |
| LocalTime.ParseStepsFitI64 | src/local_time.rs:42-63 | reading a printed timestamp from year 0 on starts from such a date, and its sum of seconds stays inside i64 |
| Records.DecodeEncodedTime | src/engines.rs:220-242 | a stored time reads back exactly when it is not before year 0 |
| Records.DecodeEncodedRecord | src/engines.rs:184-218 | the stored text of a record reads back as the record if and only if no time lies before year 0 |
| Records.RedisV0DecodeEncodedRecord | src/engines.rs:288-314 | the same for the Redis v0 text |
| Records.RedisV1DecodeRecord | src/engines.rs:263-282 | the loop over fields yields the record of the map they make: later fields override, unreadable counts are 0 |
| Records.RedisV1DecodeTime | src/engines.rs:226-234 | a Redis v1 time reads back unless it is the epoch, which reads as missing |
| Records.RedisV1DecodeEncodedRecord | src/engines.rs:252-282 | the Redis v1 fields read back as the record if and only if no time is the epoch itself |
| Vectors.RecordTexts | src/engines.rs:184-194 | the stored texts of the unit tests' record, character by character, for the file and for Redis v0 |
| Vectors.RedisForms | src/engines.rs:248-286 | the Redis v1 fields of that record, and the keys of any digest |
| Vectors.ThreeFields | src/engines.rs:196-208 | an old text of three fields is a record of reports only |
| Vectors.NoRecord | src/engines.rs:196-218 | another number of fields, another version, or a count that is no number is no record |
| Vectors.NoRedisRecord | src/engines.rs:300-314 | the same for the Redis v0 text |
| Vectors.TimeWithFraction | src/engines.rs:226-242 | a stored time may have a fraction of a second |
| Vectors.UnreadableFields | src/engines.rs:263-282 | a Redis v1 field that cannot be read counts as 0 or as missing |
| FileStore.Open | src/engines.rs:93-111 | opening keeps, for each digest, the last row that holds a record, and skips other rows |
| FileStore.BadLine | src/engines.rs:93-111 | a line without a tab, or without a record behind it, changes nothing wherever it stands |
| FileStore.OpenReadsWritten | src/engines.rs:93-153 | the written file, its rows in any order, opens to the same records if and only if no digest holds a tab or a line feed and no time lies before year 0 |
| Fips180.PaddedLength | src/sha1.rs:38-44 | the padded message is exactly 64 times the ceiling of (n + 9) / 64 bytes long |
| Fips180.PadInjective | src/sha1.rs:37-44 | messages of fewer than 2^61 bytes have the same padding if and only if they are the same |
| Fips180.BigEndianDropsHigh | src/sha1.rs:37-44 | the length field of eight bytes is the bit length modulo 2^64 |
| Sha1.ChForms | src/sha1.rs:63-68 | the OR form of Ch equals the XOR form of section 4.1.1 of FIPS 180-4 |
| Sha1.MajForms | src/sha1.rs:63-68 | the OR form of Maj equals the XOR form of section 4.1.1 of FIPS 180-4 |
| Sha1.PadMessage | src/sha1.rs:37-44 | the loop that pads yields the padding of section 5.1.1 of FIPS 180-4 |
| Sha1.FillSchedule | src/sha1.rs:47-54 | the array filled in place is the message schedule of section 6.1.2 of FIPS 180-4 |
| Sha1.Choose | src/sha1.rs:62-68 | each round uses the function and the constant of sections 4.1.1 and 4.2.1 of FIPS 180-4 |
| Sha1.Compress | src/sha1.rs:46-87 | one block updates the five words as section 6.1.2 of FIPS 180-4 defines |
| Sha1.Digest | src/sha1.rs:30-96 | the hash of FIPS 180-4, over every input |
| Sha1.Hex | src/sha1.rs:102-110 | the loop writes the hexadecimal text |
| Sha1.HexInjective | src/sha1.rs:102-110 | no two byte strings share their hexadecimal text |
| Sha1.HexTextAt | src/sha1.rs:102-110 | each byte is written as two digits, the high half first |
| Sha1Vector.LineDigest | src/sha1.rs:30-110 | the hash of the line that the digest's unit tests use, computed round by round, is the expected text |
| Sha1.Sha1.Update | src/sha1.rs:17-19 | an update appends its bytes |
| Sha1.Sha1.HexDigest | src/sha1.rs:21-27 | the digest of any series of updates is that of the concatenation |
| Transfer.RegisterStep | src/digest.rs:421-440 | the 32-bit buffer, although it drops high bits, completes exactly the bytes of the unbounded bit string |
| Transfer.DecodeBase64 | src/digest.rs:421-440 | the loop yields the whole bytes of the six-bit values before the first '=' |
| Transfer.Base64RoundTrip | src/digest.rs:421-451 | any section 4 of RFC 4648 encoding of x, with bytes outside the alphabet scattered in, decodes to x |
| Transfer.DecodeQuotedPrintable | src/digest.rs:395-419 | the index loop yields the decoded bytes |
| Transfer.QuotedPrintableRoundTrip | src/digest.rs:395-460 | any mix of literals, escapes and soft breaks of section 6.7 of RFC 2045 decodes to what it means |
| Transfer.EveryText | src/digest.rs:395-419 | every byte string is such a mix, an '=' that begins neither an escape nor a soft break standing for itself |
| Transfer.Alphabet | src/digest.rs:442-451 | the values are those of the alphabet of section 4 of RFC 4648, and no other byte has one |
| Transfer.PaddingEnds | src/digest.rs:421-440 | nothing after the first '=' counts |
| Transfer.HexDigits | src/digest.rs:453-460 | the values of the hexadecimal digits in either case, and of no other byte |
| Utf8.DecodeUtf8Ignore | src/digest.rs:494-513 | the loop over valid prefixes drops exactly the broken pieces |
| Utf8.ScalarExactly | src/digest.rs:494-513 | a character is read exactly where its encoding stands |
| Utf8.BrokenBegins | src/digest.rs:494-513 | a broken piece of more than one byte begins an encoding |
| Utf8.BrokenIsMaximal | src/digest.rs:494-513 | a broken piece is as long as it can be and still begin an encoding |
| Utf8.BrokenPiece | src/digest.rs:494-513 | after any text, a broken piece is dropped, or replaced by one character, or refused |
| Vectors.Utf8Forms | src/digest.rs:494-513 | characters of two, three and four bytes, and an overlong form, a surrogate and too large a number, which are broken |
| Multipart.SplitMultipart | src/digest.rs:250-284 | the loop with its early exit yields the parts of the scanner |
| Multipart.SplitAssembled | src/digest.rs:250-284 | splitting an assembled body (section 5.1.1 of RFC 2046) gives exactly its parts, if and only if there are none or the boundary does not end in white space |
| Multipart.SplitUnclosed | src/digest.rs:250-284 | a body that was cut off before its closing line has its parts too, the last one up to the end |
| Multipart.SplitMbox | src/digest.rs:201-223 | the loop yields the messages of the mbox scanner |
| Multipart.SplitAssembledMbox | src/digest.rs:201-223 | an mbox file splits into its messages, with any preamble glued to the first |
| Multipart.MboxRoundTrip | src/digest.rs:201-223 | the split gives exactly the messages if and only if there is no preamble |
| Multipart.FromExactly | src/digest.rs:201-223 | a message starts at a line that begins with "From " and a blank |
| Html.NormalizeHtmlPart | src/digest.rs:331-366 | the one-pass machine yields the joined pieces of the runs before which the last switching tag, if any, is a closing one; an unfinished tag swallows the rest |
| Html.TagOf | src/digest.rs:346-375 | a tag is named by its first word in any case, whatever attributes follow, and closes exactly with a slash before the name |
| Html.CollectedStep | src/digest.rs:331-366 | a completed tag changes whether text is collected only if it is a script or style tag |
| Html.RunsHoldNoTags | src/digest.rs:331-366 | no run holds '<' before unescaping |
| Html.HtmlTextShrinks | src/digest.rs:331-385 | the text is never longer than the document |
| HtmlLaws.DocumentText | src/digest.rs:331-375 | the text of a document is its trimmed, unescaped texts outside script and style elements, named in any case, with a blank between each two; an unfinished tag swallows the rest |
| HtmlLaws.Unescaped | src/digest.rs:377-385 | any mix of characters and the six entities unescapes to what it means, unless an ampersand entity is followed by the rest of another one |
| HtmlLaws.UnescapedTwice | src/digest.rs:377-385 | where it is, the result is unescaped again, but for the blank |
| Mime.NormalizeMessageNewlines | src/digest.rs:66-85 | the loop turns every line end into one newline byte |
| Mime.Parse | src/digest.rs:15-46 | the header loop, with continued lines, yields the part of the bytes |
| Mime.ReadContentType | src/digest.rs:115-142 | the loop over parameters keeps the last boundary and the last charset |
| MimeLaws.HeadersUnfold | src/digest.rs:28-44 | reading undoes folding: each header gets its trimmed name and its trimmed lines joined by blanks |
| MimeLaws.ContentTypeRead | src/digest.rs:115-142 | a type header with one parameter, quoted or not, reads back as media type and parameter |
| MimeLaws.FieldsRead | src/digest.rs:115-142 | a type header with any fields has its media type, and each parameter that its fields give |
| MimeLaws.LastField | src/digest.rs:123-134 | a parameter has the unquoted value of the last field that names it, in any case |
| MimeLaws.NoField | src/digest.rs:123-134 | and none if no field does |
| MimeLaws.NoMediaType | src/digest.rs:115-122 | a media type without a slash is plain text |
| MimeLaws.OtherHeaderLines | src/digest.rs:28-44 | a line without a colon is no header, and a continuation before any header is passed over |
| Payloads.PartsWeighLess | src/digest.rs:250-284 | the parts of a body are valid UTF-8 and together strictly smaller than the lossily decoded body |
| Payloads.ChildrenWeighLess | src/digest.rs:225-236 | the body of every child is strictly smaller, in lossily decoded bytes, than the body it came from |
| Payloads.DigestPayloads | src/digest.rs:225-248 | the recursive walk ends on every message, and appends its payloads in order |
| Composition.MultipartPayloads | src/digest.rs:15-284 | for any message assembled as multipart under a type header, the walk collects the payloads of its parts, one after the other; parts may be multipart themselves |
| Composition.PlainParts | src/digest.rs:225-248 | parts that are plain messages have their texts as payloads, in order |
| Composition.EncodedLeaf | src/digest.rs:238-247 | a text leaf in any base64 form, or any mix of quoted-printable pieces, of a text has the text as its payload |
| Leaves.DecoderExactly | src/digest.rs:462-478 | which decoder a label selects, by how it is spelled: any case, underscores for hyphens, NULs anywhere |
| Leaves.OtherCharset | src/digest.rs:474-492 | any other label asks the charset library, and falls back to ASCII |
| Leaves.Latin1At | src/digest.rs:471 | Latin-1 yields the character of each byte's number |
| Leaves.AsciiIsLatin1 | src/digest.rs:486-492 | ASCII yields those of the bytes below 128, in order |
| Leaves.EncodingIgnores | src/digest.rs:387-393 | a transfer encoding counts in any case and with any padding |
| Leaves.SecondName | src/digest.rs:387-393 | "quopri" is quoted-printable |
| Leaves.EncodingFound | src/digest.rs:48-61 | the transfer encoding is that of the first header of this name |
| Leaves.TypeFound | src/digest.rs:48-57 | the type is that of the first header of this name |
| Leaves.OtherLeaf | src/digest.rs:245-247 | a part that is neither text nor multipart has its body, lossily decoded, as its payload |
| Leaves.OtherPayloads | src/digest.rs:225-248 | so a message of that kind has its text |
| Leaves.NoBoundary | src/digest.rs:226-234 | a multipart without a boundary has no payloads |
| Leaves.WithoutBlank | src/digest.rs:15-46 | a message without a blank line is all header if its first line starts with a name and a colon, and all body otherwise |
| Leaves.HeaderlessPayloads | src/digest.rs:15-64 | so an ASCII text that is no message is its own payload |
| Payloads.MessagePayloadsSize | src/digest.rs:225-248 | the payloads hold at most 3 characters per byte of the message, and at most one if it is valid UTF-8 |
| Narrow.NarrowLeafExactly | src/digest.rs:238-247 | a narrow leaf (one read as ASCII or UTF-8, or decoded to no more bytes or library characters than its body has characters) has a payload no longer than its body; a leaf that is not HTML has one if and only if it is narrow |
| Narrow.PartsAreNarrower | src/digest.rs:250-284 | the parts of a multipart body together hold at most the characters of the body |
| Narrow.NarrowMessage | src/digest.rs:225-248 | for all bytes and any nesting: if every leaf is narrow, the payloads together hold at most as many characters as the message |
| Narrow.AsciiPayloadsSize | src/digest.rs:225-248 | every leaf of an ASCII message is narrow under any charset, so the bound holds for it |
| Growth.LatinMessage | src/digest.rs:238-247 | any message that is one Latin-1 leaf has as many payload characters as its body decodes to bytes, and so no more than the message if and only if these are no more |
| Growth.PayloadsOutgrow | src/digest.rs:225-248 | a message whose body of k two-byte characters is read as Latin-1 has payloads of 2k characters: more than its own if and only if k exceeds the length of its header and blank line |
| Predigest.Normalize | src/digest.rs:286-298 | the loop keeps the text of the tokens that stay |
| Predigest.PushNormalizedToken | src/digest.rs:300-311 | a token of ten or more characters, or one that looks like an address, is dropped |
| Predigest.NulsIgnored | src/digest.rs:286-298 | NULs anywhere leave the text of a line alone |
| Predigest.ExtraWhitespaceIgnored | src/digest.rs:286-298 | so does more white space next to white space, or at either end |
| Predigest.NoiseTokenIgnored | src/digest.rs:286-325 | so does a long token, an email address or a URL as a token of its own |
| Predigest.OrdinaryTokenKept | src/digest.rs:300-311 | every other token stays as it is |
| Text.WhitespaceExactly | src/digest.rs:286-298 | the characters that separate tokens |
| Predigest.EmailExactly | src/digest.rs:313-318 | an email address is something, the first '@', and something |
| Predigest.UrlExactly | src/digest.rs:320-325 | a URL is a scheme of ASCII letters before the first ':' |
| Predigest.UsableLine | src/digest.rs:168-176 | a line counts exactly when its text has eight bytes or more |
| Predigest.ShortLineIgnored | src/digest.rs:168-176 | a line whose text has fewer than eight bytes may stand between any lines of a payload, whichever way it ends, and at its end |
| Predigest.MessageLineExchange | src/digest.rs:163-192 | in any payload of any message, lines of equal text are exchangeable: the predigest stays |
| Predigest.MessageShortLine | src/digest.rs:163-192 | in any payload of any message, a short line may be put in anywhere: the predigest stays |
| Predigest.TextPayloads | src/digest.rs:15-64 | the one payload of a text message in UTF-8, or of ASCII text, with any header and any line ends, is its text |
| Predigest.TextLineExchange | src/digest.rs:163-192 | so in the bytes of such a message lines of equal text are exchangeable |
| Predigest.TextShortLine | src/digest.rs:163-192 | and short lines may be put in |
| Predigest.PlainPayloads | src/digest.rs:15-64 | the one payload of a plain message is its text |
| Predigest.ReadablePayloads | src/digest.rs:225-248 | the one payload of a text message is its text, and for HTML the text of the document |
| Predigest.EncodedLinesJoin | src/digest.rs:149-157 | the hash runs over the bytes of the selected lines with nothing between or after them |
| Predigest.ShortTextDigest | src/digest.rs:149-192 | the digest of a text message of up to four usable lines is the hash of their texts in one |
| Vectors.HamDigest | src/digest.rs:145-157 | the digest of the unit tests' message, with and without a NUL, is the expected text |
| Predigest.CollectLines | src/digest.rs:168-176 | the nested loops collect the usable lines of all payloads |
| Predigest.SelectLines | src/digest.rs:178-191 | the nested loops pick the lines of the windows that exist, or all of at most four |
| Predigest.PredigestWithSpec | src/digest.rs:163-192 | the whole pipeline from bytes to selected lines |
| Predigest.DigestWithSpec | src/digest.rs:149-157 | the digest is the hexadecimal SHA-1 of the selected lines one after the other |
| Predigest.DefaultWindows | src/digest.rs:181-189 | with the default spec all six positions exist exactly from six lines on, and the windows are disjoint and increasing exactly from seven on |
| Predigest.SixLines | src/digest.rs:178-191 | six or more usable lines give exactly six: three from each window |
| Predigest.FewLines | src/digest.rs:178-191 | up to four usable lines are all selected; of five the second to the fifth are, the fourth twice |
| Headers.GetAfterSet | src/message.rs:49-84 | a header set is found by its name in any case, and no other name is affected |
| Headers.SetInPlace | src/message.rs:72-84 | a header that is there gets its value where it stands, under the name it has |
| Headers.ValuesAfterSet | src/message.rs:56-84 | setting a header keeps all values of other names |
| Headers.ValuesAfterRemove | src/message.rs:56-93 | removing a name removes all its values and no others |
| Headers.FindIsFirst | src/message.rs:49-62 | the value found is the first of all values of that name |
| Headers.RemoveUndoesSet | src/message.rs:72-93 | removing undoes setting where there was none |
| Text.EqIgnoreExactly | src/message.rs:49-54 | two names are the same exactly when they differ at most in the case of letters |
| Messages.Message.Parse | src/message.rs:20-43 | the loop reads headers to the first empty line; a line that starts with a blank continues the last one |
| Messages.Message.SetHeader | src/message.rs:72-84 | the first header of that name gets the value, or a new one is added at the end |
| Messages.Message.RemoveAll | src/message.rs:90-93 | the headers of other names stay, in order |
| Messages.Message.AsString | src/message.rs:95-105 | the loop prints one line a header and an empty line |
| Messages.Message.InitForSending | src/message.rs:221-226 | a thread is added only where there is none, and the version is set |
| Messages.CleanLegacyPacket | src/server.rs:767-781 | the index loop halves pairs of newlines and ends the packet with one |
| Messages.ParseRendered | src/message.rs:20-105 | printing and parsing gives back all well-formed headers |
| Messages.CleanRendered | src/server.rs:767-781 | cleaning leaves a printed message with headers as it is |
| Messages.WireRoundTrip | src/server.rs:476-477 | the server reads exactly the well-formed headers that were printed |
| Messages.ParseFollowed | src/message.rs:20-43 | whatever follows the empty line does not count |
| Messages.DoubledIsRead | src/server.rs:767-781 | a packet with all its line ends doubled has the same headers |
| LineEnds.AnyLineEnds | src/message.rs:20-43 | packets and multipart bodies are read the same whichever way their lines end |
| LineEnds.ReturnedIsRead | src/message.rs:20-105 | so a printed message is read with CRLF, too |
| Vectors.PrintedMessage | src/message.rs:95-105 | headers that share a name are printed one after the other, each on its line, and an empty line ends the message |
| Vectors.Requests | src/message.rs:198-219 | the headers of each kind of request |
| Vectors.SentVersion | src/message.rs:221-226 | what is added before sending |
| Vectors.ThreadStays | src/message.rs:221-226 | a thread that is there stays |
| Vectors.ReadLines | src/message.rs:20-43 | a continuation is joined by a line feed; a line without a colon is no header |
| Accounts.SignMsg | src/account.rs:32-39 | the signature is the hash of the hash of the trimmed message, time and key |
| Accounts.SignForAccount | src/account.rs:41-47 | the message gets user, time and the signature over both |
| Accounts.VerifySignature | src/account.rs:49-76 | the checks in their order, each with its own error |
| Accounts.FreshExactly | src/account.rs:62-66 | the wrapped window exactly; between clock readings it is 300 seconds to both sides |
| Accounts.SignedVerifies | src/account.rs:41-76 | a message without a signature verifies with the key it is signed with, exactly while fresh |
| Accounts.SignedSurvivesWire | src/account.rs:32-76 | signed, printed, cleaned and parsed headers are those signed, and verify if and only if the clocks are at most 300 seconds apart |
| Accounts.RefusalReasons | src/account.rs:49-76 | each refusal with its own text, if and only if its check is the first to fail |
| Accounts.OtherSignature | src/account.rs:68-75 | a signed message with anything else in place of its signature is refused, however fresh |
| Accounts.AcceptedAlike | src/account.rs:28-76 | two accepted messages with one signature agree in text, time, and user with lowered key, or show a hash collision |
| Accounts.SignaturesIgnore | src/account.rs:28-39 | white space around the text and the case of the key do not count |
| Accounts.SameSignature | src/account.rs:32-39 | equal signatures are of equal trimmed text, time and hashed key, or show a hash collision |
| Engines.FileDatabase.UpdateAll | src/engines.rs:122-138 | a batch on the records in memory is the fold of single updates |
| Engines.RedisV0Database.Get | src/redis_engine.rs:203-211 | a missing value is the default record, an unreadable one an error |
| Engines.RedisV0Database.UpdateAll | src/engines.rs:46-61 | the default get-increment-set loop on stored texts, up to its first error |
| Engines.UnreadableStops | src/engines.rs:46-61 | a stored text that is no record stops the batch there, and what was done before it stays |
| Engines.RedisV1Database.UpdateAll | src/redis_engine.rs:155-179 | the three commands for each digest, up to the first error |
| Engines.RunSummary | src/engines.rs:20-41 | after any updates a record holds the capped number of them, the time of the first and of the last |
| Engines.RunDomain | src/engines.rs:113-138 | a digest has a record exactly once it was updated |
| Engines.EnteredStays | src/engines.rs:20-41 | an entered time never changes once it is set |
| Engines.OthersStay | src/engines.rs:20-41 | an update leaves other digests and the other half of the record alone |
| Engines.HashStep | src/redis_engine.rs:155-180 | one update of the Redis hashes goes through if and only if the count is below the cap, and keeps agreement |
| Engines.AllStoresAgree | src/redis_engine.rs:155-180 | from empty stores and with a positive clock the text store always agrees with the records in memory; the updates of the Redis hashes all succeed if and only if no digest is updated more often than the cap, and then the hashes agree too |
| Engines.BatchesAgree | src/redis_engine.rs:155-179 | the same over any sequence of calls, each with a batch of any kind and any digests |
| Server.ReallyHandle | src/server.rs:501-637 | user, signature, version and access are checked in this order before the operation |
| Server.Dispatch | src/server.rs:542-635 | what each operation adds to the response and does to the store |
| Server.ApplyError | src/server.rs:748-765 | the code and text of each error |
| Server.HandlePacket | src/server.rs:467-499 | the response and the new store for any packet |
| Server.RefusalCodes | src/server.rs:506-536 | each response code if and only if its check is the first to fail |
| Server.RefusalErrors | src/server.rs:506-540 | the text of each refusal, as the first check that fails |
| Server.ResponseCode | src/server.rs:478-498 | the response says 200 if and only if the request was admitted, and carries the request's thread |
| Server.ResponseDiag | src/server.rs:748-765 | the diagnosis that goes with each code, and the version of the response |
| Server.RequestRead | src/server.rs:467-477 | the request of a packet is what was printed into it, its line ends doubled or not |
| Server.ReadOnlyPackets | src/server.rs:542-629 | refused packets, ping, pong, check and info change nothing |
| Server.ServedCounts | src/server.rs:596-628 | after any run of packets a count is the capped number of occurrences in accepted requests, entered with the first and updated with the last |
| Server.RunGrows | src/engines.rs:20-41 | along a run no count falls and no time of entry changes |
| Server.EnteredBeforeUpdated | src/engines.rs:20-41 | with a monotone clock no entered time exceeds the updated time |
| Server.CheckAnswers | src/server.rs:559-579 | a check is told the capped number of accepted reports and whitelistings before it |
| Server.InfoAnswers | src/server.rs:580-595 | an info request is told these counts and the times of the first and the last |
| Server.PongAnswers | src/server.rs:550-558 | a pong claims the largest count, and no whitelisting |
| Server.PingAnswers | src/server.rs:548-549 | a ping adds nothing to the response |
| Clients.Sign | src/client.rs:139-147 | the thread and version are set, then the message is signed |
| Clients.RequestAdmitted | src/server.rs:467-540 | a signed, sent request that fits the server's buffer carries its own digests, and is admitted for its operation if and only if the account may do it and is anonymous or has a clock that agrees |
| Clients.DefaultAccess | src/server.rs:501-540 | without an access file, an anonymous request that fits the server's buffer is admitted for every operation but whitelist |
| Clients.DefaultAllows | src/config.rs:70-90 | without an access file nobody else may do anything |
| Clients.BatchClient.AddDigest | src/client.rs:222-247 | the digest joins the batch of its address, which is sent and forgotten once full |
| Clients.BatchClient.ReportDigest | src/client.rs:186-195 | only the reports and what was sent change |
| Clients.BatchClient.WhitelistDigest | src/client.rs:197-206 | only the whitelists and what was sent change |
| Clients.BatchClient.Flush | src/client.rs:208-211 | open batches are dropped, nothing is sent |
| Clients.BatchClient.SendAll | src/client.rs:213-220 | each address is sent its open batch once, in the table's own order |
| Clients.BatchClient.Force | src/client.rs:213-220 | every open batch is sent once, reports first, and none is left |
| Batching.BatchFields | src/client.rs:222-247 | a batch message carries its digests in order, and its operation |
| Batching.BatchesConserve | src/client.rs:213-247 | in every state, for each address and kind, what was handed over and what waits is what was added, in order; every message sent holds one digest at least and no more than fit |
| Batching.SentWhenFull | src/client.rs:222-247 | a batch is sent as soon as it is full, and not before |
| Batching.ForceHandsAll | src/client.rs:213-220 | after a force exactly what was added has been handed over |
| Batching.SingleAdmitted | src/client.rs:62-74 | a signed single report or whitelisting that fits the server's buffer is admitted for its digest, if and only if the account may do it and is anonymous or has a clock that agrees |
| Batching.BatchAdmitted | src/client.rs:222-247 | a signed batch of well-formed digests that fits the server's buffer is admitted for what it carries, if and only if the account may do it and is anonymous or has a clock that agrees |
| Batching.BatchingKeepsCounts | src/client.rs:213-247 | for any digests, batch size and moments of forcing, the server ends with the same counts as from single requests |
| PacketSize.BatchSize | src/client.rs:222-247 | a signed batch of digests of at most 40 bytes takes at most 52 bytes a digest, and 122 besides the spec, the thread and the user's name |
| PacketSize.BatchFits | src/server.rs:307-308 | so 150 such digests are received whole |
| Responses.PrintedSurvives | src/message.rs:20-105 | headers whose values were read, or are one line, come back from print and parse if and only if no value has a line feed |
| Responses.ResponseSurvivesWire | src/server.rs:467-499 | for any packet, a response is read as the server built it if and only if the echoed thread has no line feed |
| Forwarders.ForwardOne | src/forwarder.rs:101-110 | the request is added once for every listing of a server |
| Forwarders.ForwardLoop | src/forwarder.rs:80-99 | the worker forwards what it receives until told to stop, then what is left, then forces |
| Forwarders.LoopHandsAll | src/forwarder.rs:80-110 | all that the worker took has been handed over, for every listing of a server and in order, and nothing waits |
| Forwarders.TakenUntilStop | src/forwarder.rs:86-93 | the loop ends at the first timeout that finds the flag set, or when nobody can send, and not before |
| Forwarders.Reachable | src/forwarder.rs:24-110 | the invariant of queue, worker and batches holds in every interleaving |
| Forwarders.NothingLost | src/forwarder.rs:24-110 | handed over, waiting, in hand and queued digests are the accepted ones in order, for each address as often as it is listed; the queue never exceeds its capacity |
| Forwarders.AllHandedOnExit | src/forwarder.rs:86-99 | after the worker exits nothing waits, and exactly what was accepted before it last found the queue empty was handed over |
| Forwarders.StopHandsOver | src/forwarder.rs:66-99 | once a stop has returned, every request accepted before it was called has been handed over for every listing of a server, in order and ahead of later ones |
| ThreadLimiters.MutexStep | src/server.rs:240-271 | only the owner of the mutex is inside it |
| ThreadLimiters.CountStep | src/server.rs:240-271 | every step keeps the count equal to the live permits and the waking threads sufficient |
| ThreadLimiters.Reachable | src/server.rs:224-271 | the invariant holds in every interleaving of any number of threads |
| ThreadLimiters.PermitsBounded | src/server.rs:240-271 | the count is the number of live permits, never above the maximum, and its subtraction never saturates |
| ThreadLimiters.NoLostWakeup | src/server.rs:240-271 | while the mutex is free and a thread sleeps, the woken threads are at least as many as the permits left |
| ThreadLimiters.SleepersAreNotAlone | src/server.rs:240-271 | whenever a thread sleeps, another one is awake or holds a permit |
| Access.LoadAccessFile | src/config.rs:70-142 | the nested loops over lines, users and operations yield the folded rules, or the default without a file |
| Access.LastRuleWins | src/config.rs:93-138 | for every text, user and operation: granted if and only if the last valid line naming both says allow |
| Access.RuleLine | src/config.rs:93-138 | at the end of any text, a line of three fields grants with "allow" and withdraws with "deny" each operation it lists from each user it lists, "all" standing for all, in any case and padding; with another word it changes nothing |
| Access.OtherLine | src/config.rs:93-106 | comments, blank lines and lines without exactly two colons change nothing |
| RedisProtocol.WriteCommand | src/redis_engine.rs:311-320 | the loop writes the length-prefixed command |
| RedisProtocol.Reader.ReadLine | src/redis_engine.rs:364-375 | one line without its line end, or the error |
| RedisProtocol.Reader.ReadResp | src/redis_engine.rs:322-362 | the recursive reader ends on every input, consumes exactly one reply, and reports each malformed one |
| RedisProtocol.RespOf | src/redis_engine.rs:322-362 | every reply that is read takes at least one byte |
| RedisProtocol.SentRead | src/redis_engine.rs:322-391 | every reply, arrays of arrays included, is read as what was sent: status, error, number, text, no text, array, no array |
| RedisProtocol.BadLine | src/redis_engine.rs:322-362 | a line that is no number, a length below -1 and an unknown prefix each have their error |
| RedisProtocol.BadBulk | src/redis_engine.rs:334-345 | a text must be followed by CRLF |
| RedisProtocol.EndedEarly | src/redis_engine.rs:334-345 | input that ends within a text is an error |
| RedisProtocol.NothingToRead | src/redis_engine.rs:322-325 | so is no input, and a prefix without a line |
| RedisProtocol.BareLine | src/redis_engine.rs:364-375 | a line may end with a line feed alone |
| RedisProtocol.LastLine | src/redis_engine.rs:364-375 | or with the input |
| Vectors.CommandBytes | src/redis_engine.rs:311-320 | a command in bytes |
| Text.ParseDigits | src/redis_engine.rs:387-391 | digits, after one sign at most, whose value fits are a number |
| Text.ParseOnlyDigits | src/redis_engine.rs:387-391 | and nothing else is |
| RedisProtocol.CommandRead | src/redis_engine.rs:311-391 | a written command followed by anything reads as exactly its byte strings, leaving exactly what follows |
| RedisProtocol.CommandInjective | src/redis_engine.rs:311-320 | no two commands can be mistaken for each other in a stream |
| RedisProtocol.DecodeHgetall | src/redis_engine.rs:393-424 | pairs make a map; an odd number, a missing or an invalid text is an error |
| RedisProtocol.BadHgetall | src/redis_engine.rs:393-424 | anything but an array of an even number of texts is an error |
| RedisProtocol.HgetallRead | src/redis_engine.rs:393-424 | the reply that carries some fields decodes to the map they make |
| RedisProtocol.SetThenGet | src/redis_engine.rs:134-153 | the fields that set writes come back over the wire as the record if and only if no time is the epoch itself |

## Left out

- LocalTime.ParseFormatted: the UTC path only; local time zones and their rules belong to libc.
- LocalTime.ParseStepsFitI64: for texts that were printed; the model wraps the arithmetic on other texts near the limits of i64 once, at its end.
- Accounts.FreshExactly: wrapping arithmetic as in a release build; a build with overflow checks panics instead, and answers 500.
- Sha1.Digest: the bit length of inputs from 2^61 bytes on wraps, as in a release build; a build with overflow checks panics.
- Text.Lower: ASCII only, which is exact for every word its result is compared with; a label handed to the charset library may differ.
- Payloads.MessagePayloadsSize: the charset library is a parameter that yields at most one character per byte; the bound in characters is Narrow.NarrowMessage.
- Narrow.NarrowMessage: one way only, since a leaf that grows can be outweighed by another that shrinks; the exact condition is that of each leaf.
- Predigest.SelectLines: without the overflow of a window offset times the number of lines in a machine word.
- Messages.ParseRendered: headers without line breaks; a continued line is read with a newline that printing does not fold again.
- Server.ReallyHandle: without proxy sources, without a forwarder, without errors and panics of the store, and without logging.
- Server.Dispatch: without asking proxy sources after a check that finds nothing, and without forwarding reports.
- Server.HandlePacket: without the answer to a handler that panicked.
- Server.ApplyError: without timeouts and errors of the operating system, which the handler does not raise.
- Clients.RequestAdmitted: a request longer than the server's buffer is cut off there; nothing is claimed of what is left of it.
- Batching.BatchAdmitted: the same for a batch; PacketSize.BatchFits names batches that are never cut.
- Batching.BatchingKeepsCounts: for a server that received and accepted every request whole.
- Responses.ResponseSurvivesWire: without the client's own buffer of 8192 bytes.
- Clients.BatchClient.SendOnly: a hand-over event; sockets, name resolution and packet loss are not modelled, and a failed send loses its batch.
- Engines.RedisV1Database.UpdateAll: reports and whitelistings in one method with a parameter; expiry off; the commands behave as Redis documents them.
- Engines.AllStoresAgree: runs of report and whitelist; after a set, a missing time stored as 0 is not replaced by HSETNX.
- Engines.CAP: the largest isize of a 64-bit target.
- FileStore.OpenReadsWritten: reading and writing the file itself, and dropping old records on opening.
- RedisProtocol.Reader.ReadResp: without the limits of memory that a huge length would reach.
- Forwarders.NothingLost: dropping the batch client forces once more, when nothing is left to send.
- ThreadLimiters.Reachable: without poisoned mutexes; a panic while the mutex is held does not occur in this code.
- Access.LoadAccessFile: without the log; names of accounts are a parameter, in any order.
- src/gdbm_engine.rs, src/mysql_engine.rs, src/mysql_cli.rs and src/mysql_native.rs: foreign libraries and SQL.
- src/bin, src/logging.rs, src/python_repr.rs: command lines, processes, signals and log texts.
- The other loaders of src/config.rs (accounts, servers, whitelists, INI sections) and RedisDsn: no hard property.
- The client's check of response thread ids: a comparison of two numbers.
