# imapIO core in Dafny

This project models the text-processing core of imapIO, an IMAP client
library:

- the `utf-7-imap4` codec for mailbox names (section 5.1.3 of RFC 3501): `encode`, `decode`, the modified base64 helpers and the codec lookup;
- folder names: `normalize_folder`, `make_folderFilter`, and the folder search of `revive`;
- MIME part lists: `extract` and the part list of `Email.save`;
- message building: `build_message` and `strip_illegal_characters`;
- header text: `Email._decode` and `normalize_nickname`;
- the Email object: the `flags` setter, `set_flag`, `seen`/`deleted`, and the `as_string` cache.

Modules:

- **Wrappers:** `Option`.
- **Base64:** RFC 4648 section 4 base64 over bytes.
- **Utf16:** UTF-16 big-endian.
- **ModifiedBase64:** `encode_mb64`/`decode_mb64`, and the encoder exactly as written.
- **Utf7Imap:**
  - `encode` and `decode` as loops, proved equal to reference functions (`EncodeRef`, `DecodeFrom`);
  - the codec lookup.
- **Utf7ImapLaws:** the codec's round trip and the other properties.
- **Text:** `strip`, `\s+` collapsing, ASCII `lower`/`title`, character replacement.
- **Folders:** folder names.
- **Parts:** `extract`/`save`.
- **Builder:** `build_message`.
- **Headers:** header text.
- **Mailbox:** the Email and server objects.

Library calls become parameters:

- `decode_header`, `email`'s byte-to-text decoding, `mimetypes.guess_type`, `chardet.detect`;
- `parseaddr` (its output is the input of `NormalizeNickname`);
- reading attachment files, the formatted date;
- the server's replies.

The server is a class holding the log of UID commands sent to it.
An error that Python raises is a `None` result, or a `false` result for
`SetFlags`, `SetFlag`, `SetSeen` and `SetDeleted`, which return nothing else.

Where the code and its documentation differ, the model follows the code, with
one exception: `encode_mb64` as written loses tab, CR and LF (see Findings), so
`Utf7Imap.Encode` and `Utf7Imap.EncodeRef` use the corrected encoder, and
`Utf7Imap.EncodeRefAsWritten` is the encoder exactly as written. Otherwise:

- `normalize_folder` strips `"` and space before it collapses whitespace, so it is not idempotent. A leading tab becomes a leading space that a second pass strips (`Folders.NotIdempotent`).
- The `flags` setter removes only the first `\Recent`; a second one is still sent (`Mailbox.SecondRecentKept`).

## Model

| member | source | states |
|---|---|---|
| Utf7Imap.Encode | imapIO/utf_7_imap4.py:20-36 | the loop computes the reference encoding (one `&…-` group per maximal buffered run, `&` as `&-`, printable ASCII copied) and reports the whole input as consumed |
| Utf7Imap.Decode | imapIO/utf_7_imap4.py:39-57 | the state machine computes the reference decoding (closed state, open run from `&`, `-` closes, open run flushed at the end); the whole input is consumed; it fails exactly where the reference fails |
| Utf7Imap.EncodeRun | imapIO/utf_7_imap4.py:22-35 | a maximal run of buffered characters at the front becomes exactly one group |
| Utf7Imap.Classification | imapIO/utf_7_imap4.py:29-34 | every character is exactly one of passthrough, `&`, or buffered |
| Utf7Imap.EncodeRefAsWritten | imapIO/utf_7_imap4.py:20-36 | encode with encode_mb64 as written; the encoding is empty exactly when the text is |
| Utf7Imap.LookupCodec | imapIO/utf_7_imap4.py:77-79 | the search function answers only to the name `utf-7-imap4` |
| Utf7ImapLaws.RoundTrip | imapIO/utf_7_imap4.py:20-57 | with the corrected encode_mb64, decoding the encoding of any text gives the text back |
| Utf7ImapLaws.EncodeIdentity | imapIO/utf_7_imap4.py:28-30 | text of characters 0x20-0x25 and 0x27-0x7E encodes to itself |
| Utf7ImapLaws.EncodePrintable | imapIO/utf_7_imap4.py:22-35 | with the corrected encode_mb64, the encoding contains only characters 0x20-0x7E |
| Utf7ImapLaws.AmpersandAfterRun | imapIO/utf_7_imap4.py:31-32 | a `&` is written as `&-` right after the group for the run pending before it |
| Utf7ImapLaws.DecodeAmpersand | imapIO/utf_7_imap4.py:44 | a run holding only `&` (the text `&-`) decodes to a literal `&` |
| Utf7ImapLaws.DecodeTrailingAmpersand | imapIO/utf_7_imap4.py:44-56 | any text without `&` followed by a `&` still open at the end decodes to itself: the open `&` is flushed as `&` |
| Utf7ImapLaws.DecodeOpenRunAtEnd | imapIO/utf_7_imap4.py:44-56 | a run that is never closed by `-` is still decoded when the input ends |
| Utf7ImapLaws.AmpersandInRun | imapIO/utf_7_imap4.py:48-53 | inside an open run a second `&` is ordinary payload |
| Utf7ImapLaws.CollectPayload | imapIO/utf_7_imap4.py:52-53 | inside an open run, characters other than `-` are collected in order |
| Utf7ImapLaws.DecodeIdentity | imapIO/utf_7_imap4.py:47-55 | text without `&` decodes to itself |
| Utf7ImapLaws.DecodeGroup | imapIO/utf_7_imap4.py:41-51 | one group written for a run decodes back to that run |
| Utf7ImapLaws.DecodeMalformed | imapIO/utf_7_imap4.py:44-51 | a group `&p-` whose payload p is not valid modified base64 makes decode fail, whatever follows it |
| Utf7ImapLaws.DecodeLoneSymbol | imapIO/utf_7_imap4.py:44-51 | a group holding a single base64 symbol (`&A-`) makes decode fail, whatever follows it |
| Utf7ImapLaws.AsWrittenTabLost | imapIO/utf_7_imap4.py:60-62 | with the encoder as written, a lone tab is written as `&-` and decodes to `&` |
| Utf7ImapLaws.EncodeAsWrittenTab | imapIO/utf_7_imap4.py:20-36 | encode as written turns a lone tab into `&-` |
| Utf7ImapLaws.RoundTripAsWritten | imapIO/tests.py:274-277 | on text without tab, CR or LF, decoding the encoding as written gives the text back |
| Utf7ImapLaws.AsWrittenEncodeAgrees | imapIO/utf_7_imap4.py:20-36 | on text without tab, CR or LF, encode as written equals the corrected encode |
| ModifiedBase64.EncodeMb64 | imapIO/utf_7_imap4.py:60-62 | the encoding is empty exactly when the run is, and holds only base64 symbols with `,` for `/` |
| ModifiedBase64.DecodeMb64 | imapIO/utf_7_imap4.py:65-67 | a payload of length 1 modulo 4 fails; a payload that decodes holds only base64 symbols, `,` or `/` |
| ModifiedBase64.PythonUtf7 | imapIO/utf_7_imap4.py:61 | Python's UTF-7 of a run: empty exactly for the empty run; tab, CR and LF are copied directly; a run of only shifted characters is `+`, its standard base64, `-` |
| ModifiedBase64.EncodeMb64AsWritten | imapIO/utf_7_imap4.py:60-62 | the UTF-7 text with its first and last character cut off, with no `/` left |
| ModifiedBase64.CommaForSlash | imapIO/utf_7_imap4.py:62 | modified base64 has `,` exactly where standard base64 has `/`, and is otherwise equal to it |
| ModifiedBase64.DecodeEncodeMb64 | imapIO/utf_7_imap4.py:60-67 | decode_mb64 inverts encode_mb64 |
| ModifiedBase64.TabEncodesToNothing | imapIO/utf_7_imap4.py:60-62 | the encoder as written turns a lone tab into the empty string |
| ModifiedBase64.AsWrittenAgrees | imapIO/utf_7_imap4.py:60-62 | on runs without tab, CR or LF, the encoder as written equals the corrected one |
| Base64.DecodeEncode | imapIO/utf_7_imap4.py:61 | base64 decoding inverts base64 encoding, the base of modified base64 |
| Utf16.DecodeEncodeBytes | imapIO/utf_7_imap4.py:61 | UTF-16BE decoding inverts UTF-16BE encoding, the base of modified base64 |
| Folders.NormalizeFolder | imapIO/__init__.py:465-469 | normalizing fails exactly when the codec's decode fails |
| Folders.NormalizedShape | imapIO/__init__.py:465-469 | a normalized name has no two adjacent whitespace characters, no whitespace other than the space, and no upper-case letter |
| Folders.NormalizedWords | imapIO/__init__.py:469 | normalizing keeps every non-whitespace character of the stripped, lower-cased name, in order |
| Folders.NotIdempotent | imapIO/__init__.py:465-469 | normalizing `\tX` gives ` x`, and normalizing that again gives `x` |
| Folders.MakeFolderFilter | imapIO/__init__.py:451-462 | a name or a collection gives a filter exactly when its names normalize; a predicate is wrapped as it is; anything else gives no filter (Python's None) |
| Folders.NormalizeAll | imapIO/__init__.py:458 | the names normalized one by one, failing when one fails |
| Folders.Accepts | imapIO/__init__.py:451-462 | no filter accepts nothing; a filter answers exactly when the folder normalizes; a name filter accepts exactly the folders that normalize to its name |
| Folders.NamesFilter | imapIO/__init__.py:457-459 | a collection filter accepts exactly the folders that normalize like one of the names |
| Folders.FilterAcceptsOwnFolder | imapIO/__init__.py:451-459 | the filter built from a folder's name, or from a one-element list of it, accepts that folder |
| Folders.SelectFolder | imapIO/__init__.py:124-131 | the loop finds the first folder that normalizes like the target, or else the target to create |
| Folders.SelectFirstMatch | imapIO/__init__.py:124-127 | the first matching folder is the one chosen |
| Folders.SelectNoMatch | imapIO/__init__.py:129-131 | when no folder matches, the target is created |
| Folders.SelectSound | imapIO/__init__.py:124-131 | a chosen folder is in the list and normalizes like the target |
| Parts.Walk | imapIO/__init__.py:432 | the walk of a part is never empty and starts with the part itself |
| Parts.WalkPreorder | imapIO/__init__.py:432 | each subpart's walk sits in the parent's walk at its pre-order position |
| Parts.Step | imapIO/__init__.py:433-446 | a multipart node gives no record; a record has its pre-order index, a name and type defaulted to `''`, and a payload exactly when not peeking |
| Parts.CharsetFor | imapIO/__init__.py:444 | the content charset, else the set charset, else the detector's guess |
| Parts.StepCharset | imapIO/__init__.py:441-446 | a text part under applyCharset is decoded with the charset chosen by priority |
| Parts.Extract | imapIO/__init__.py:417-448 | the loop over the walk computes the records of the reference fold |
| Parts.ExtractSound | imapIO/__init__.py:431-447 | every record comes from a non-multipart node that include accepts, and the indices increase |
| Parts.ExtractComplete | imapIO/__init__.py:431-447 | every non-multipart node that include accepts has its record |
| Parts.ExtractRaises | imapIO/__init__.py:444-445 | extract fails exactly when one node's charset lookup fails |
| Parts.PeekRecords | imapIO/__init__.py:441 | with peek nothing fails and no record has a payload |
| Parts.PayloadRecords | imapIO/__init__.py:441-446 | without peek every record has its payload |
| Parts.SaveStep | imapIO/__init__.py:344-353 | with save's options a node gives a record exactly when it is not multipart |
| Parts.Save | imapIO/__init__.py:344-353 | save returns what extract returns with peek and an always-true include |
| Parts.SaveListsParts | imapIO/__init__.py:344-353 | save never fails and lists exactly as many parts as the message has non-multipart nodes |
| Builder.StripIllegalCharacters | imapIO/__init__.py:480-481 | the result has no NUL, and every other character is kept as often as before |
| Builder.StripIllegalFixed | imapIO/__init__.py:480-481 | text without NUL is unchanged, and stripping twice changes nothing more |
| Builder.PlainPart | imapIO/__init__.py:362 | the plain body is a `text/plain` part in utf-8 holding the text |
| Builder.HtmlPart | imapIO/__init__.py:363 | the html body is a `text/html` part with the default us-ascii charset holding the text |
| Builder.Basename | imapIO/__init__.py:376 | the base name is the part of the path after its last `/` |
| Builder.AttachmentType | imapIO/__init__.py:377-380 | a guessed type that is missing or carries an encoding becomes `application/octet-stream` |
| Builder.SplitType | imapIO/__init__.py:381 | split at the first `/`; no `/` is an error |
| Builder.AttachmentPart | imapIO/__init__.py:376-393 | an attachment part is marked with its path's base name; it fails exactly when the type has no `/` |
| Builder.AttachmentTyping | imapIO/__init__.py:383-393 | text, image and audio each get their own part class; any other type gets a base64 generic part |
| Builder.UnknownTypeIsOctetStream | imapIO/__init__.py:378-392 | an unguessable or compressed file is sent as a base64 `application/octet-stream` part |
| Builder.BodyParts | imapIO/__init__.py:366-374 | the body parts of a mixed message: alternative(plain, html), plain, html, or nothing |
| Builder.AttachmentParts | imapIO/__init__.py:375-394 | when attaching succeeds there is one part per path, each an attachment named after its path's base name |
| Builder.AttachAll | imapIO/__init__.py:375-394 | the loop succeeds exactly when every path gives a part, and then appends those parts in order |
| Builder.AttachmentPartsMeaning | imapIO/__init__.py:375-394 | attaching fails exactly when one path fails, and otherwise gives each path's part in order |
| Builder.BuildMessage | imapIO/__init__.py:359-409 | with attachments: mixed of the body parts and then one part per attachment; without: alternative, html or plain; headers in order; NUL removed from subject and bodies |
| Builder.Headers | imapIO/__init__.py:403-408 | six headers named, in order, `date`, `subject`, `from`, `to`, `cc`, `bcc`, each holding its given value |
| Builder.HeadersDistinct | imapIO/__init__.py:403-408 | no header name is set twice |
| Builder.MimeMultipart.Attach | imapIO/__init__.py:368-394 | attach appends the part |
| Headers.DecodeText | imapIO/__init__.py:241-252 | never fails; the result starts and ends without whitespace and every whitespace run in it is one space |
| Headers.Retry | imapIO/__init__.py:247 | the retry never shortens the text |
| Headers.Packs | imapIO/__init__.py:243-250 | decode_header of the text, else of the retried text, else the text itself as utf-8 |
| Headers.JoinDecoded | imapIO/__init__.py:251 | no pack gives the empty text; one pack gives its part decoded with its charset or utf-8 |
| Headers.JoinDecodedConcat | imapIO/__init__.py:251 | the parts are decoded one by one and joined in order |
| Headers.DecodeParsed | imapIO/__init__.py:243-252 | when decode_header succeeds, the result is its parts joined, stripped and collapsed |
| Headers.DecodeRetried | imapIO/__init__.py:245-252 | when only the retry parses, the result is the retry's parts joined, stripped and collapsed |
| Headers.DecodeKeepsWords | imapIO/__init__.py:251-252 | every non-whitespace character of the joined parts is kept, in order |
| Headers.DecodeFallback | imapIO/__init__.py:243-250 | when decode_header raises on both the raw and the retried text, the raw text is decoded as utf-8 |
| Headers.RetrySplitsWords | imapIO/__init__.py:247 | the retry separates adjacent encoded words `?==?` into `?= =?` |
| Headers.RetryWithoutJoinedWords | imapIO/__init__.py:247 | a text without `?==?` is retried unchanged |
| Headers.DecodeNormalFixed | imapIO/__init__.py:251-252 | an already trimmed and collapsed text that decodes to itself comes back unchanged |
| Headers.CharsetOrUtf8 | imapIO/__init__.py:251 | a given non-empty charset is used as it is; the result is never empty (a missing or empty one means utf-8) |
| Headers.NormalizeNickname | imapIO/__init__.py:472-477 | no `.` or `_`, whitespace collapsed, no `"` or space at either end, and a letter is upper-case exactly when it starts a word |
| Headers.NicknameOfDottedAddress | imapIO/__init__.py:472-477 | without a display name, `a.b@domain` gives `A B` for any two words of letters |
| Headers.NicknameOfDisplayName | imapIO/__init__.py:472-477 | a display name `a. b` gives `A B` for any two words of letters |
| Headers.NicknameFromAddress | imapIO/tests.py:270 | `person.one@example.com` gives `Person One` |
| Headers.NicknameFromDisplayName | imapIO/tests.py:271 | `Mr. Person <person.one@example.com>` gives `Mr Person` |
| Headers.NicknameWords | imapIO/__init__.py:477 | apart from case, the nickname keeps every character of the name other than whitespace, `.`, `_` and domains, in order, cutting only `"` at either end |
| Headers.StripDomains | imapIO/__init__.py:26 | the substitution never lengthens the text and keeps a leading `,` |
| Headers.StripDomainsLeavesNoDomain | imapIO/__init__.py:26 | after the substitution, every remaining `@` or `/` ends the text or is followed by `,` |
| Headers.StripDomainsAbsent | imapIO/__init__.py:26 | text without `@` or `/` is unchanged |
| Headers.StripDomainsAt | imapIO/__init__.py:26 | `user@domain,rest` keeps `user` and drops the domain up to the `,` |
| Mailbox.FlagList | imapIO/__init__.py:270-273 | a single flag is wrapped in a one-element list; an iterable is listed as it is |
| Mailbox.RemoveFirst | imapIO/__init__.py:274-278 | the first occurrence is removed and the others keep their order; a missing flag changes nothing |
| Mailbox.StoreFlags | imapIO/__init__.py:279 | the flags setter stores `FLAGS` with `(` the flags joined by spaces `)`, without the first `\Recent` |
| Mailbox.StoreFlag | imapIO/__init__.py:283-286 | set_flag stores `+FLAGS` or `-FLAGS` with `(flag)` |
| Mailbox.OneFlagArgument | imapIO/__init__.py:270-286 | setting one flag other than `\Recent` sends the same argument as set_flag |
| Mailbox.RecentAloneClears | imapIO/__init__.py:274-279 | setting only `\Recent` sends `()` |
| Mailbox.SecondRecentKept | imapIO/__init__.py:274-278 | only the first `\Recent` is removed |
| Mailbox.Email.GetFlags | imapIO/__init__.py:258-265 | the flags getter sends one FETCH of `(FLAGS)` and returns the parsed reply |
| Mailbox.Email.SetFlags | imapIO/__init__.py:267-281 | sends exactly the STORE command of the flags setter; fails when the reply is not OK |
| Mailbox.Email.SetFlag | imapIO/__init__.py:283-289 | sends exactly the STORE command of set_flag; fails when the reply is not OK |
| Mailbox.Email.SetSeen | imapIO/__init__.py:296-299 | sets or clears `\Seen` |
| Mailbox.Email.SetDeleted | imapIO/__init__.py:306-309 | sets or clears `\Deleted` |
| Mailbox.Email.IsSeen | imapIO/__init__.py:291-294 | fetches the flags; true exactly when `\Seen` is among them |
| Mailbox.Email.IsDeleted | imapIO/__init__.py:301-304 | fetches the flags; true exactly when `\Deleted` is among them |
| Mailbox.Email.AsString | imapIO/__init__.py:311-327 | the first call fetches the flags and the body, stores the flags back and caches the body; once cached, the body is returned and nothing is sent; each failing reply stops the commands after it |
| Text.Strip | imapIO/__init__.py:467 | the result is a middle part of the text; everything cut away is in the set; it neither starts nor ends with a character of the set |
| Text.StripIdempotent | imapIO/__init__.py:467 | stripping twice changes nothing more |
| Text.CollapseHead | imapIO/__init__.py:469 | collapsing gives a text with no two adjacent whitespace characters and no whitespace other than the space |
| Text.CollapseIdempotent | imapIO/__init__.py:469 | collapsing twice changes nothing more |
| Text.CollapseKeepsWords | imapIO/__init__.py:469 | collapsing keeps every non-whitespace character, in order |
| Text.CollapseConcat | imapIO/__init__.py:469 | two texts not both whitespace at their meeting point collapse separately |
| Text.CollapseRun | imapIO/__init__.py:469 | a whitespace run between non-whitespace becomes one space |
| Text.StripKeepsWords | imapIO/__init__.py:252 | stripping keeps every non-whitespace character except those of the set cut at either end, in order |
| Text.TitleShape | imapIO/__init__.py:477 | title() keeps non-letters and letterness; a letter is upper-case exactly when it is the first character or follows a non-letter |

## Left out

- Network, server replies and their timing: the server calls of `as_string` are three separate round trips, and the model records them in order without atomicity. `imaplib.IMAP4.abort` handling is not modelled.
- The `flags` getter parses the FETCH reply with `imaplib.ParseFlags`; the model takes the parsed flags as its reply.
- The `PATTERN_FOLDER` regex and the LIST parsing of `folders` are not part of this model. `SelectFolder` takes the folder names as given.
- The `create` and `append` calls in `revive` are not modelled. `SelectFolder` returns the folder to append to, or the target to create.
- Date and time conversion (`formatdate`, `timegm`, `utcnow`, `mktime_tz`): `BuildMessage` takes the date header already formatted.
- File and gzip I/O in `save` and `extract(path)`, and reading attachment files: the file contents come in through `Builder.Env`.
- MIME serialisation, base64 transfer encoding inside the `email` package, and header encoding (`.encode('utf-8')` on header values): headers are kept as text.
- Utf7Imap.Encode: uses the corrected encode_mb64 of the Findings row; on runs holding tab, CR or LF it differs from the source, whose behaviour `Utf7Imap.EncodeRefAsWritten` models.
- Codec registration side effects (`codecs.register`) and logging.
- Utf7Imap.Decode: strict, where Python's UTF-7 decoder is lenient. It refuses payloads that are not canonical modified base64 and lone UTF-16 surrogates.
- Text.Lower and Text.Title: only ASCII letters change case. The model does not cover Unicode case mapping.
- Headers.DecodeText: the byte-to-text decoder (`part.decode(charset, 'ignore')`) is a total parameter. An unknown charset name, which makes Python raise `LookupError`, is not modelled.
- Headers.NormalizeNickname: takes `parseaddr`'s two results as its input. The parsing itself is not modelled.
- Parts.CharsetFor: `get_charset()` is modelled as an optional charset name, not as a `Charset` object.
- Builder.BuildMessage: `attachmentPaths=None` and an empty list both take the branch without attachments, and the model has only the empty sequence for both.
- setup.py: packaging only.

## Findings

| source | as written | input that shows it | evidently intended | confidence | as-written member | corrected member |
|---|---|---|---|---|---|---|
| imapIO/utf_7_imap4.py:60-62 | `encode_mb64` takes Python's `utf-7` output and slices off its first and last character; Python's UTF-7 writes tab, CR and LF directly, so a run made of them comes back as an empty or corrupt group | a mailbox name holding a lone tab: encoded as `&-`, which decodes to `&` | modified base64 of the UTF-16BE text, buffering tab, CR and LF like any other character | not executed | ModifiedBase64.EncodeMb64AsWritten, Utf7Imap.EncodeRefAsWritten (Utf7ImapLaws.AsWrittenTabLost, Utf7ImapLaws.EncodeAsWrittenTab, ModifiedBase64.TabEncodesToNothing) | ModifiedBase64.EncodeMb64, Utf7Imap.EncodeRef (Utf7ImapLaws.RoundTrip) |
