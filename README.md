# Grok Code Fast card — a Dafny model

This project models the core of `GrokCodeFastCard`, the Home Assistant
dashboard card in `grok-code-fast-card.js`. The card is a chat client for a
remote code assistant and keeps a code editor next to the chat. The model
covers the parts of the card that decide things:

- **Decoding the reply** (`decoder.dfy`, `field_pattern.dfy`, `escapes.dfy`).
  The assistant's raw response becomes a `{assistantText, assistantCode}`
  pair. A value of the wrong type gives the error marker. A string goes
  through strict `JSON.parse`, then a repair pass and a second parse, then
  extraction of the two fields by pattern, then plain text. Each stage is
  modelled with the branch that produced the pair and the banner it asks for.
  The field pattern is written as a deterministic scanner, proved equal to
  the regular expression. The repair escaper and the unescaper are each
  modelled twice: as written and corrected (see "## Findings"). The decoder
  takes the pair to run as a parameter, `Escapes.Escaping`. The card runs
  the pair as written (`Escapes.AsWritten`), exactly as the program does.
  The corrected pair (`Escapes.Corrected`) is the decoder as its comments
  describe it.
- **The retry loop** (`retry.dfy`). There are up to `retries` attempts, with a
  linear wait of `delay * (i + 1)` after failed attempt `i`. The last failure
  is rethrown. The waits and the warning banners are recorded.
- **Persistence** (`persistence.dfy`, and `WriteSession` plus the store
  methods in `card.dfy`). A save writes the last 100 messages with every
  attachment stripped to `{filename, contentLength}`. On a quota error it
  retries once with the last 20 messages of the full history and shows
  "trimmed". If that also fails it shows "Storage full". Any other error
  shows "Failed to save", with no retry. Loading applies the `||` defaults.
  The storage key is derived from the user id.
- **The card object** (`card.dfy`, class `GrokCodeFastCard`). It has the
  fields the source updates in place, and its methods:
  - the `hass` setter;
  - load and save;
  - `_sendPrompt`, split into three steps: log and save the prompt, make the
    call, record the reply and save;
  - `_handleFileSelect`, with the extension and size checks (`files.dfy`);
  - `_clearAttachment`.

  `getGridOptions` is a pure function.

Everything outside the card is a parameter:

- `JSON.parse` is `parse: string -> Option<Value>`; `None` means it threw.
- The keyed browser store is the object `KeyedStore`. How it answers a write
  is `verdict`.
- The remote call is `outcome: nat -> Outcome`, the result of attempt `i`.
- The clock's readings are the timestamps `sentAt` and `repliedAt`.
- Banners go into the `notices` field in the order the card asks for them.

Where the code and its comments disagree, the model follows the code:

- The retry wait grows linearly. The comment on `SERVICE_RETRY_DELAY_MS`
  (line 42) says exponential (`Retry.CallWithRetry`).
- The strict stage accepts any string that parses to something other than
  `null`. A JSON number, boolean, string or array therefore decodes to
  `''`/`''` without a warning, not as malformed data
  (`Decoder.ParsedNonNullIsAccepted`).
- Parsing JSON `null` makes field extraction throw. The stage's `catch`
  turns that into a failed stage, so the cascade moves on.

## Model

| member | source | states |
|---|---|---|
| Js.Trim | grok-code-fast-card.js:693 | `trim` is `s[p..q]`, where everything before `p` and from `q` on is JavaScript white space and the result neither starts nor ends with white space; it is `''` exactly when `s` is all white space |
| Js.LeadingSpaces | grok-code-fast-card.js:646-647 | `\s*` from position `i`: the first position at or after `i` that is not white space, with only white space skipped |
| Js.IsObject | grok-code-fast-card.js:553 | `typeof v === 'object' && v !== null`: the value is an array or a plain object (a predicate; `ObjectIsTruthy` states its property) |
| Js.ObjectIsTruthy | grok-code-fast-card.js:553 | every value that passes the object test is truthy and is neither `null` nor `undefined` |
| Js.Truthy | grok-code-fast-card.js:571-572 | JavaScript truthiness: `false`, `0`, `''`, `null` and `undefined` are falsy, everything else truthy (a predicate; `TruthyCases` states its cases) |
| Js.TruthyCases | grok-code-fast-card.js:571-572 | `null` and `undefined` are falsy, and a string is truthy exactly when it is non-empty |
| Js.Member | grok-code-fast-card.js:571-572 | `v.key` is the object's entry for the key, and `undefined` when the value is not a plain object or has no such key |
| Js.Or | grok-code-fast-card.js:571-572 | `a \|\| b` is `a` when `a` is truthy and `b` otherwise |
| Notices.Banner | grok-code-fast-card.js:37 | a banner without an explicit duration carries its message and level and lasts `BANNER_DISPLAY_DURATION_MS` (7500 ms) |
| Escapes.DoubleLoneBackslashes | grok-code-fast-card.js:625 | the first replacement of the repair escaper leaves a value without backslashes unchanged |
| Escapes.RepairEscapeAsWritten | grok-code-fast-card.js:624-628 | the four chained replacements, each lookbehind tested on that replacement's input; its properties are `RepairEscapeAsWrittenLeavesRawNewline` and `RepairEscapesAgreeWithoutBackslash` |
| Escapes.EscapeUnlessEscaped | grok-code-fast-card.js:626-628 | one control-character replacement leaves a value without that character unchanged |
| Escapes.RepairEscape | grok-code-fast-card.js:624-628 | the corrected repair escaper as one token scanner; its properties are the next three rows |
| Escapes.RepairEscapeWellEscaped | grok-code-fast-card.js:623-629 | after the corrected repair, every backslash begins one of `"\/bfnrtu`, and no raw LF, CR or tab remains |
| Escapes.RepairThenUnescape | grok-code-fast-card.js:623-676 | what the repair is for: read back by the corrected unescaper, a repaired value says what the value said, its raw control characters included |
| Escapes.RepairEscapeNoRawControl | grok-code-fast-card.js:624-628 | after the corrected repair, no raw newline, carriage return or tab is left in a field value |
| Escapes.RepairEscapeAsWrittenLeavesRawNewline | grok-code-fast-card.js:624-628 | the chained replacements turn a backslash followed by a raw newline into two backslashes and a raw newline, which the second parse rejects; the corrected escaper gives `\\\n` |
| Escapes.RepairEscapesAgreeWithoutBackslash | grok-code-fast-card.js:624-628 | on a value without backslashes the as-written chain and the corrected escaper give the same string |
| Escapes.ReplaceEscape | grok-code-fast-card.js:670-674 | one `/\\c/g` replacement leaves a string without backslashes unchanged |
| Escapes.UnescapeAsWritten | grok-code-fast-card.js:668-669 | an empty string unescapes to `''` |
| Escapes.UnescapeAsWrittenNoBackslash | grok-code-fast-card.js:668-676 | the as-written unescaper is the identity on strings without backslashes |
| Escapes.Unescape | grok-code-fast-card.js:668-676 | the corrected unescaper is the identity on strings without backslashes |
| Escapes.EscapeJson | grok-code-fast-card.js:668-676 | encoding a string that contains a quote introduces a backslash |
| Escapes.UnescapeEscapeJson | grok-code-fast-card.js:668-676 | round trip: the corrected unescaper inverts JSON string escaping for every string |
| Escapes.UnescapeAsWrittenBreaksEscapedBackslash | grok-code-fast-card.js:670-675 | the as-written chain decodes the encoding of "backslash, n" as "backslash, newline"; the corrected unescaper returns "backslash, n" |
| FieldPattern.BodyEnd | grok-code-fast-card.js:646-647 | the body `(?:[^"\\]\|\\.)*` ends at a quote, and the text before it matches the body pattern |
| FieldPattern.BodyEndFinds | grok-code-fast-card.js:646-647 | completeness: any body followed by a quote is found, and it ends at that quote |
| FieldPattern.FieldAt | grok-code-fast-card.js:646-647 | a match at position `i` starts with the quoted key and ends after a well-formed body |
| FieldPattern.LeadingSpacesStopsAt | grok-code-fast-card.js:646-647 | `\s*` over a run of white space stops at the first character that is not white space |
| FieldPattern.FieldAtFromPattern | grok-code-fast-card.js:646-647 | completeness: where the regular expression matches (`PatternAt`), the scanner reports that match, with the text between the quotes as its body |
| FieldPattern.PatternFromFieldAt | grok-code-fast-card.js:646-647 | soundness: what the scanner reports is a match of the regular expression |
| FieldPattern.FieldAtIsPattern | grok-code-fast-card.js:646-647 | the scanner matches at `i` exactly when the regular expression does, and with the same body and end |
| FieldPattern.FindField | grok-code-fast-card.js:649-650 | `match` without `g`: the leftmost match, with no match before it; `None` exactly when no position matches |
| FieldPattern.EitherFieldAt | grok-code-fast-card.js:623 | the alternation `(response_text\|response_code)` matches at `i` exactly when one of the two keys does, trying `response_text` first |
| FieldPattern.RepairFrom | grok-code-fast-card.js:623-630 | a string in which no field pattern matches passes through the global replacement unchanged |
| FieldPattern.RepairFields | grok-code-fast-card.js:623-630 | the line-623 replacement over the whole string, with the chosen repair escaper; see `RepairFrom`, `RepairOneField` and `Decoder.RepairOneTextField` |
| FieldPattern.RepairFromCopies | grok-code-fast-card.js:623 | text in which no field match starts is copied by the replacement unchanged |
| FieldPattern.RepairOneField | grok-code-fast-card.js:623-630 | a string with a single match is rewritten at that match only, as `"KEY":"REPAIRED"`, with the text before and after it copied |
| FieldPattern.RepairWithoutFields | grok-code-fast-card.js:623-630 | the repair pass is the identity when neither field occurs, for either escaper |
| Decoder.ExtractFields | grok-code-fast-card.js:569-574 | `_extractResponseFields` fails (throws) exactly on `null`/`undefined`; each field is truthy or `''` |
| Decoder.InvalidFormatReply | grok-code-fast-card.js:579-582 | the reply for an input that is neither object nor string: the error marker as text and a falsy empty code |
| Decoder.StrictStage | grok-code-fast-card.js:607-615 | strategy 1 succeeds exactly when `JSON.parse` accepts the string and yields neither `null` nor `undefined` |
| Decoder.RepairStage | grok-code-fast-card.js:620-639 | strategy 2 succeeds exactly when `JSON.parse` accepts the repaired string and yields neither `null` nor `undefined` |
| Decoder.ExtractedField | grok-code-fast-card.js:653-654 | an unmatched field is `''` |
| Decoder.ExtractionStage | grok-code-fast-card.js:644-663 | pattern extraction fails exactly when neither field pattern matches, and otherwise yields two strings |
| Decoder.PlainTextReply | grok-code-fast-card.js:681-685 | the last resort: the whole string as text and a falsy empty code |
| Decoder.TryParseWithFallbacks | grok-code-fast-card.js:587-602 | a string never decodes as an object or as invalid input; plain text is the whole string and `''`; extraction yields two strings |
| Decoder.ParseResponse | grok-code-fast-card.js:551-564 | the object branch exactly for objects and arrays, the invalid-format branch exactly for values that are neither objects nor strings |
| Decoder.DecoderNotice | grok-code-fast-card.js:579-685 | a warning banner exactly for the invalid-format and plain-text stages, with their messages |
| Decoder.ObjectInputPassesFields | grok-code-fast-card.js:553-574 | an object goes straight to field extraction: a truthy field is kept as it is, and a missing or falsy one becomes `''` |
| Decoder.InvalidInputGivesMarker | grok-code-fast-card.js:558-582 | a value that is neither an object nor a string decodes to the error marker and `''` |
| Decoder.StringInputStageOrder | grok-code-fast-card.js:587-602 | a string is decoded by the first strategy that succeeds (strict, repair, extraction, plain text), and the reply is that strategy's reply |
| Decoder.ParsedNonNullIsAccepted | grok-code-fast-card.js:607-615 | any string that parses to a non-null value is accepted by the strict stage; a non-object gives `''`/`''` |
| Decoder.NoFieldsMeansPlainText | grok-code-fast-card.js:620-685 | a string that does not parse and contains no field pattern is shown as plain text |
| Decoder.ExtractionFields | grok-code-fast-card.js:644-663 | in extraction, each matched field is its body read by the chosen unescaper (for the program, `UnescapeAsWritten`, the chain of lines 670-675), and each unmatched field is `''` |
| Decoder.DecodeIsIdempotent | grok-code-fast-card.js:551-574 | whatever the input, the decoded pair passed back in as an object decodes to itself |
| Decoder.EscapeJsonIsBody | grok-code-fast-card.js:646-647 | the JSON encoding of any string matches the body pattern |
| Decoder.EncodedTextFieldFound | grok-code-fast-card.js:646-650 | in `"response_text":"ENC"`, with `ENC` the encoding of any string, the text pattern matches at 0 with body `ENC` |
| Decoder.CorrectedExtractionRecoversText | grok-code-fast-card.js:644-663 | with the corrected unescaper, extraction gives back whatever string was encoded in the text field |
| Decoder.EscapedBackslashReplyDecodes | grok-code-fast-card.js:587-675 | the reply `"response_text":"\\n"`, which `JSON.parse` rejects, goes to pattern extraction; the program shows a backslash and a newline, the corrected decoder a backslash and `n` |
| Decoder.EscapedBackslashReplyExtracted | grok-code-fast-card.js:587-663 | either decoder takes that reply past both parses to pattern extraction, and reads its body with its own unescaper |
| Decoder.RepairOneTextField | grok-code-fast-card.js:623-630 | a reply that is one text field is repaired by repairing that field's body |
| Decoder.RepairKeepsEscapedBackslash | grok-code-fast-card.js:623-630 | both repair passes leave that reply unchanged |
| Persistence.Last | grok-code-fast-card.js:826-838 | `slice(-n)`: the last `min(n, length)` messages |
| Persistence.StripAttachment | grok-code-fast-card.js:788-791 | a stripped attachment keeps its file name, drops its content and records the content's length, or 0 |
| Persistence.StripMessage | grok-code-fast-card.js:784-795 | an assistant message is kept; a user message keeps its text, code and time stamp and one attachment per attachment, with its name, no content and its content's length |
| Persistence.PrepareForStorage | grok-code-fast-card.js:783-796 | the history mapped message by message; its properties are `PrepareForStorageShape` |
| Persistence.PrepareForStorageShape | grok-code-fast-card.js:783-798 | stripping keeps the length and every message, except that a user message's attachments are each stripped |
| Persistence.RestrippingLosesLength | grok-code-fast-card.js:789-790 | stripping an already-stripped attachment records length 0, whatever length it recorded |
| Persistence.StripAttachmentKeepingLength | grok-code-fast-card.js:788-791 | the corrected stripping: the content's length for an attachment with content, the recorded length for one already stripped |
| Persistence.RestrippingKeepsLength | grok-code-fast-card.js:788-791 | the corrected stripping is idempotent and keeps the content's length across a reload |
| Persistence.BuildStorageData | grok-code-fast-card.js:803-811 | the record holds the given history and the session's code, flags and response id |
| Persistence.PrimaryRecord | grok-code-fast-card.js:824-830 | the first write holds min(100, length) messages and the session's code, flags and response id; `RecordsHoldRecentHistory` says which messages |
| Persistence.RotatedRecord | grok-code-fast-card.js:838-841 | the write after a quota error holds min(20, length) messages and the session's code, flags and response id; `RecordsHoldRecentHistory` says which messages |
| Persistence.RecordsHoldRecentHistory | grok-code-fast-card.js:824-841 | the first write holds the last 100 messages, stripped and in order; the write after rotation holds the last 20 |
| Persistence.SaveDecision | grok-code-fast-card.js:822-852 | the decisions of `_saveToStorage`; its properties are `SaveDecisionCases` and `RecordsHoldRecentHistory` |
| Persistence.SaveDecisionCases | grok-code-fast-card.js:822-852 | a record is written exactly when the first write succeeds or the rotated one does after a quota error. Each case's banner is stated: none, "trimmed", "storage full" or "failed to save" |
| Persistence.RotationOfTruncated | grok-code-fast-card.js:826-838 | rotating the full history or the 100 saved messages gives the same last 20 |
| Persistence.LoadedSession | grok-code-fast-card.js:769-773 | each restored field comes from the record, or its default when missing or falsy |
| Persistence.SaveThenLoad | grok-code-fast-card.js:769-811 | round trip: loading what a save of at most 100 messages wrote gives back the session, with attachments stripped |
| Persistence.StorageKey | grok-code-fast-card.js:139 | the key is `grok_code_fast_data_` followed by the user id |
| Persistence.StorageKeysDistinct | grok-code-fast-card.js:139 | different users get different keys |
| Retry.Backoff | grok-code-fast-card.js:538 | the `n` waits are `delay * 1, ..., delay * n` |
| Retry.RetryNotice | grok-code-fast-card.js:540 | a warning that stays up for the wait, reading `Network error. Retrying... (Attempt N)` with N in decimal digits |
| Retry.RetryNotices | grok-code-fast-card.js:540 | one warning per wait, "Attempt i" with that wait as its duration |
| Retry.SettleFrom | grok-code-fast-card.js:531-543 | from attempt `i`: every attempt before the last fails; the last either succeeds and is returned, or is attempt `retries` and is rethrown |
| Retry.Settle | grok-code-fast-card.js:530-544 | no attempt exactly when `retries <= 0`; otherwise 1 to `retries` attempts, settling as above |
| Retry.CallWithRetry | grok-code-fast-card.js:530-544 | the loop settles as `Settle` says, and between attempts waits `Backoff(delay, attempts - 1)` and shows the matching warnings |
| Retry.TwoFailuresThenSuccess | grok-code-fast-card.js:530-544 | three attempts at 1000 ms against fail, fail, succeed: waits 1000 and 2000, then the success |
| Retry.ThreeFailures | grok-code-fast-card.js:534-541 | three failures out of three attempts: two waits, then the third error is rethrown |
| FileRules.LastSegment | grok-code-fast-card.js:990 | `name.split('.').pop()` holds no dot and is no longer than the name; `LastSegmentShape` says which suffix it is |
| FileRules.LastSegmentShape | grok-code-fast-card.js:990 | `split('.').pop()` is a dot-free suffix of the name, preceded by a dot unless it is the whole name |
| FileRules.Extension | grok-code-fast-card.js:990 | a dot, then the last segment lower-cased: one character longer than the segment, with no further dot and no upper-case ASCII letter |
| FileRules.Lower | grok-code-fast-card.js:990 | `toLowerCase` keeps the length and lowercases each ASCII letter |
| FileRules.AllowedMimes | grok-code-fast-card.js:991 | the MIME list for an allowed extension, which is never empty; `[]` otherwise |
| FileRules.Check | grok-code-fast-card.js:993-1001 | the two checks of one file, type first; its properties are `CheckCases` |
| FileRules.CheckCases | grok-code-fast-card.js:993-1001 | refused for type exactly when the extension is not allowed; otherwise refused for size exactly when it exceeds 102400 bytes; accepted otherwise |
| FileRules.MaxFileSizeKb | grok-code-fast-card.js:999 | the limit printed in KB, 100, times 1024 is the byte limit |
| FileRules.RejectionNotice | grok-code-fast-card.js:993-1000 | a refusal is an error banner of the default duration |
| FileRules.RejectionMessages | grok-code-fast-card.js:993-1000 | the banner texts "File type not allowed: NAME" and "File is too large: NAME (max 100KB)" |
| FileRules.ToAttachment | grok-code-fast-card.js:1009 | an accepted file becomes `{filename, content}` with the text it was read as |
| FileRules.AcceptMeansAllowed | grok-code-fast-card.js:993-1001 | an accepted file has an allowed extension and is within the size limit |
| FileRules.Accepted | grok-code-fast-card.js:989-1011 | the attachments a selection adds, in pick order and at most one per file; its properties are `AcceptedAreAllowed`, `AcceptedFileIsAttached` and `EachFileAttachedOrRefused` |
| FileRules.Rejections | grok-code-fast-card.js:989-1001 | the banners a selection shows, at most one per file; its properties are `RejectionsAreErrors`, `RefusedFileIsReported` and `EachFileAttachedOrRefused` |
| FileRules.AcceptedAreAllowed | grok-code-fast-card.js:989-1011 | every attachment a selection adds has an allowed extension and carries content |
| FileRules.RejectionsAreErrors | grok-code-fast-card.js:993-1000 | every banner a selection shows is an error |
| FileRules.AllRefusedAddsNothing | grok-code-fast-card.js:989-1011 | if every file is refused, nothing is attached |
| FileRules.AllAcceptedShowsNothing | grok-code-fast-card.js:989-1011 | if every file is accepted, no banner is shown |
| FileRules.AcceptedFileIsAttached | grok-code-fast-card.js:1007-1011 | each accepted file's attachment is among those added |
| FileRules.RefusedFileIsReported | grok-code-fast-card.js:993-1001 | each refused file's banner is among those shown |
| FileRules.EachFileAttachedOrRefused | grok-code-fast-card.js:989-1012 | every file is either attached or refused, never both, so the counts add up to the number of files |
| FileRules.NameWithoutDotIsItsOwnExtension | grok-code-fast-card.js:990 | a name without a dot is its own extension (`py` counts as `.py`) |
| FileRules.ExtensionAfterLastDot | grok-code-fast-card.js:990 | only the text after the last dot decides, ignoring case |
| FileRules.SmallPythonFileAccepted | grok-code-fast-card.js:990-1004 | a small `NAME.PY` is accepted whatever its MIME type |
| Card.StoreAfterSave | grok-code-fast-card.js:816-853 | the store after one save; its properties are `StoreAfterSaveChangesOnlyItsKey` |
| Card.SaveNotices | grok-code-fast-card.js:816-853 | the banners of one save; its properties are `SaveNoticesAtMostOne` |
| Card.StoreAfterSaveChangesOnlyItsKey | grok-code-fast-card.js:816-853 | a save changes only its own key and leaves there the record it wrote; without a key it writes nothing |
| Card.SaveNoticesAtMostOne | grok-code-fast-card.js:816-853 | a save shows at most one banner, and none without a key or when the first write succeeds |
| Card.BuildRequest | grok-code-fast-card.js:712-716 | the request always has the prompt. It has the user id and the response id exactly when they are truthy, the attachments exactly when the list is non-empty, and the code exactly when it is non-empty and user-modified |
| Card.TextOf | grok-code-fast-card.js:720 | a decoded string field is used as it is |
| Card.NextResponseId | grok-code-fast-card.js:729-731 | an object reply's non-empty string `previous_response_id` replaces the id, and the id changes in no other way |
| Card.ErrorText | grok-code-fast-card.js:735 | `Error: ` followed by the message, or by the serialized error when the message is empty |
| Card.Answer | grok-code-fast-card.js:718-738 | the `try`/`catch` once the retry has settled; its properties are `AnswerOutcomes` |
| Card.AnswerOutcomes | grok-code-fast-card.js:718-738 | a failure logs and shows its error line and keeps the code, the flag and the id. A success logs the decoded text and code and shows the decoder's warning, if any. A truthy decoded code replaces the code and clears the flag; otherwise both stay. The id becomes `NextResponseId` |
| Card.PlainTextReplyKeepsCode | grok-code-fast-card.js:681-733 | an unparsable reply with no fields is logged as it is, with the plain-text warning, and the code and id are kept |
| Card.ObjectReplyReplacesCode | grok-code-fast-card.js:720-733 | an object reply with non-empty `response_code` replaces the code, clears the flag and logs the text |
| Card.Logged | grok-code-fast-card.js:697-706 | the session once the user's message is logged; its properties are `LoggedAppendsUserMessage` |
| Card.LoggedAppendsUserMessage | grok-code-fast-card.js:697-706 | logging a prompt appends exactly one user message with the prompt, the attachments and the timestamp `sentAt`. It carries `currentCode` exactly when the code is non-empty and user-modified; nothing else changes |
| Card.AfterTurn | grok-code-fast-card.js:720-737 | the session once the reply is logged and its code, flag and id taken over; `RecordReply` states it |
| Card.CeilThird | grok-code-fast-card.js:1184 | `Math.ceil(n / 3)` |
| Card.Grid | grok-code-fast-card.js:1181-1186 | 12 columns and 6 to 14 rows; 6 exactly for no code and an empty log; 14 exactly for code and more than 12 messages |
| Card.GridRowsMonotone | grok-code-fast-card.js:1184 | a longer log never makes the card shorter |
| Card.Without | grok-code-fast-card.js:1020-1022 | the sequence without its element at `index`, or unchanged when `index` is out of range |
| Card.WriteSession | grok-code-fast-card.js:816-853 | the store and the banners change exactly as `StoreAfterSave` and `SaveNotices` say |
| Card.GrokCodeFastCard.constructor | grok-code-fast-card.js:80-108 | empty history and code, flags false, no response id, no attachments, no key |
| Card.GrokCodeFastCard.Snapshot | grok-code-fast-card.js:803-811 | the durable session: the history, code, flags and response id that a save writes and a load restores; the class methods' contracts are stated on it |
| Card.GrokCodeFastCard.SaveToStorage | grok-code-fast-card.js:816-853 | saves the current session under the card's key, with its banner |
| Card.GrokCodeFastCard.LoadFromStorage | grok-code-fast-card.js:759-776 | no key, or no entry: nothing changes. A record: the session becomes `LoadedSession`. An unparsable entry: a warning, and nothing else |
| Card.GrokCodeFastCard.SetHass | grok-code-fast-card.js:133-142 | on the first set with a non-empty user id, the key is derived and the session loaded; otherwise only the flag is set |
| Card.GrokCodeFastCard.ClearAttachment | grok-code-fast-card.js:1020-1022 | removes the pending attachment at `index`, if there is one |
| Card.GrokCodeFastCard.HandleFileSelect | grok-code-fast-card.js:985-1015 | appends the accepted files' attachments in order and shows one banner per refused file; no file list changes nothing |
| Card.GrokCodeFastCard.LogPrompt | grok-code-fast-card.js:696-710 | sets loading, logs the user message, hands over and clears the attachments, and saves |
| Card.GrokCodeFastCard.RecordReply | grok-code-fast-card.js:720-741 | records the settled exchange as `Answer` says, clears loading, and saves |
| Card.GrokCodeFastCard.Exchange | grok-code-fast-card.js:718-741 | three attempts at 1000 ms, their warnings, then `RecordReply` of the settled result |
| Card.GrokCodeFastCard.SendPrompt | grok-code-fast-card.js:692-741 | an empty trimmed prompt with no attachment changes nothing. Otherwise: the request built from the state before the call, the history with both messages, the code and id after the reply, two saves, and every banner in order |

## Left out

- `JSON.parse` is a parameter, not a parser. `JSON.stringify` followed by `JSON.parse` is taken to give back the record that was written.
- Numbers are integers; NaN and fractions are not modelled.
- Card.TextOf: a truthy decoded field that is not a string (a JSON number, say) is stored as `''`. The source stores the value itself.
- Card.NextResponseId: only a string `previous_response_id` is taken over. A truthy non-string one is ignored.
- The null or missing envelope `response.response` is not modelled: the successful outcome is the payload itself.
- String lengths count Dafny characters, not UTF-16 code units.
- FileRules.Lower: `toLowerCase` does ASCII letters only.
- FileRules.RejectionNotice: does not model the MIME-type warning (lines 1003-1005), because it only goes to the console.
- Card.GrokCodeFastCard.HandleFileSelect: `FileReader` is asynchronous. The model appends the attachments in the order the files were picked, as if each read finished before the next began.
- Card.GrokCodeFastCard.SetHass: the `hass` object is always a real object. The source tests `!this._hass` (line 134), so after a falsy `hass` the next set would count as a first set again and reload storage; the model sets its flag once and keeps it.
- Card.GrokCodeFastCard.SendPrompt: requires the `hass` object to be set. Without it the source throws at line 713, after the first save.
- Card.GrokCodeFastCard.SendPrompt: clearing the prompt input, moving the focus and updating the editor (lines 709, 725-726 and 742-750) are DOM effects and are not modelled. The loading flag is observable only through the methods' contracts.
- The console messages, the banner timers and animations, the save debounce, and scrolling are not modelled.
- Card.GrokCodeFastCard.LoadFromStorage: an entry holding the empty string (skipped by `if (stored)`) is not distinguished from a missing entry.
- Rendering, styles and themes, the confirmation dialog, the configuration editor and the editor creation are not modelled.
- `_clearChat`, `_syncChatHistory`, copying to the clipboard and `_formatTime` are not part of this model.
- Interleavings of concurrent `_sendPrompt` calls are not modelled: each call runs to completion.

## Findings

| source | as written | input that shows it | evidently intended | confidence | as-written member | corrected member |
|---|---|---|---|---|---|---|
| grok-code-fast-card.js:624-628 | The repair escaper first doubles a lone backslash. The raw-newline replacement's lookbehind `(?<!\\)` then sees that backslash and leaves the newline raw. | field value: backslash, raw newline | every backslash begins one of `"\/bfnrtu`, and no raw LF, CR or tab remains | not executed | Escapes.RepairEscapeAsWrittenLeavesRawNewline | Escapes.RepairEscapeNoRawControl |
| grok-code-fast-card.js:670-675 | The unescaper replaces `\n` before `\\`. The encoding of a backslash followed by `n` (`\\n`) is therefore decoded as a backslash and a newline. | the reply `"response_text":"\\n"` | unescaping inverts JSON string escaping | not executed | Decoder.EscapedBackslashReplyDecodes | Decoder.CorrectedExtractionRecoversText |
| grok-code-fast-card.js:788-791 | Stripping writes `contentLength` from the content. A loaded attachment has no content, so the next save writes length 0. | save, load, then save a message whose attachment has content `abc` | a stored attachment keeps the length it recorded | not executed | Persistence.RestrippingLosesLength | Persistence.RestrippingKeepsLength |

The card follows the program as written: its decoder runs `Escapes.AsWritten`, and it strips with `StripAttachment`. The corrected definitions (`Escapes.Corrected`, `Persistence.StripAttachmentKeepingLength`) stand beside them with the intended properties proved. The escaper findings are also shown at the character level, by `Escapes.RepairEscapeAsWrittenLeavesRawNewline` and `Escapes.UnescapeAsWrittenBreaksEscapedBackslash`.
