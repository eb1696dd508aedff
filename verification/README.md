# rex-radio-api: request signing, schedule validation and record updates in Dafny

This project models the parts of the rex-radio API backend that hold real logic. The
rest of that service stores broadcast configuration and presenters in a document store.
The modelled parts are:

- **Signed requests** (`main.py`). `verify_signature` first checks that the claimed
  epoch timestamp is within 300 seconds of the clock. It then signs
  `timestamp ++ method ++ path ++ body` with HMAC-SHA-512, base64-encodes the digest
  and compares it with the claimed signature. The `hmac_auth` middleware wraps that
  check in a fixed sequence:
  1. an exempt path passes;
  2. missing credentials get 401;
  3. the body to sign is chosen by method;
  4. a missing secret gets 500;
  5. a bad signature gets 401.

  The middleware's registration decorator is commented out at `main.py:131`. The
  gate is modelled as written, but the running service does not install it.
- **Schedule slots** (`models/presenter.py`): a day that is one of seven lower-case
  names, `start` and `end` times checked against the `HH:MM` pattern, and `end`
  lexically after `start`.
- **Presenter request bodies** (`requests/presenter_requests.py`): create needs three
  non-empty strings, and its slot list defaults to empty. Every update field is optional.
- **Record updates** (`main.py`): the configuration upsert loop, and the partial merge
  that `update_presenter` applies to the presenter object.

Modules, one per component: `Wrappers` (Option/Result), `Utf8`, `Base64`, `Signature`,
`Gate`, `Schedule`, `PresenterRequests`, `Presenters` (the `Presenter` class and its
update loop) and `Configuration` (the `ConfigStore` class and its upsert loop).

Some of the code's behaviour is modelled as given rather than computed:

- HMAC-SHA-512 and Python's float conversion of the timestamp header are fields of the
  `Signature.Primitives` value. The digest is any function into 64-byte strings. The
  float conversion gives `None` where it raises `ValueError`, and otherwise a finite
  value, an infinity or NaN.
- The clock reading `now` is a parameter.
- The request body is given as bytes.
- `hmac.compare_digest` is equality, except that it raises `TypeError` when a string is
  not ASCII. That exception is not caught, so it appears as `VerifyResult.RaisesTypeError`
  and `GateOutcome.Unhandled`.

## Model

| member | source | states |
|---|---|---|
| `Utf8.EncodeChar` | main.py:122 | Each character is encoded in shortest form: one byte below U+0080, two below U+0800, three below U+10000, four above, with the lead byte announcing the length and continuation bytes after it |
| `Utf8.Encode` | main.py:122 | The UTF-8 encoding of a text is at least as long as the text and at most four bytes per character |
| `Utf8.EncodeAppend` | main.py:122 | Encoding the run-together fields equals running their encodings together, so the message is UTF-8(timestamp), UTF-8(method), UTF-8(path), then the body |
| `Utf8.EncodeAscii` | main.py:122 | ASCII text encodes to one byte per character, equal to its code point |
| `Utf8.DecodeEncode` | main.py:122 | Decoding UTF-8 recovers the text, so no two texts share an encoding |
| `Utf8.EncodeInjective` | main.py:122 | Two texts with the same encoding are equal |
| `Base64.Encode` | main.py:126 | The base64 text of n bytes has 4·⌈n/3⌉ characters (RFC 4648 section 4, padded) |
| `Base64.DecodeEncode` | main.py:126 | Decoding the base64 text gives back the encoded bytes |
| `Base64.EncodeInjective` | main.py:126 | Different digests never have the same base64 text |
| `Base64.EncodeIsAscii` | main.py:126-129 | Base64 text is always ASCII, so the expected signature never makes the comparison raise |
| `Base64.EncodeDigestShape` | main.py:125-126 | A 64-byte SHA-512 digest encodes to 88 characters ending in `==` |
| `Signature.CanonicalMessage` | main.py:122 | The signed bytes are UTF-8 of timestamp, method and path in that order with no separators, followed by the raw body |
| `Signature.ExpectedSignature` | main.py:125-126 | The expected signature is 88 ASCII characters that decode to the HMAC-SHA-512 digest of the message under the secret |
| `Signature.VerifySignature` | main.py:113-129 | An unparseable or expired timestamp gives false, not an exception. The result is true exactly when the timestamp is fresh and the signature equals the expected base64 MAC. `TypeError` escapes exactly when the timestamp is fresh and the signature is not ASCII |
| `Signature.FreshnessBoundary` | main.py:115-117 | A drift of exactly 300 s either way is accepted and 301 s is rejected (strict `>`). A NaN timestamp never expires and an infinite one always does |
| `Signature.AcceptedSignatureIsMac` | main.py:122-129 | An accepted signature base64-decodes to the MAC of UTF-8(timestamp)+UTF-8(method)+UTF-8(path)+body |
| `Signature.PathBodyBoundaryNotSigned` | main.py:122 | Moving text from the end of the path to the front of the body, as its UTF-8 bytes, does not change the verdict, because no separator is signed |
| `Gate.UpperAscii` | main.py:150 | Upper-casing keeps the length, maps each ASCII lower-case letter to its capital and keeps every other character |
| `Gate.HmacAuth` | main.py:132-170 | Exempt paths pass. Missing or empty credentials on any other path get 401 "Missing signature or timestamp". Exactly when the credentials are present but the secret is absent or empty, the result is 500 |
| `Gate.ForwardIff` | main.py:132-170 | A non-exempt request is forwarded exactly when both headers are non-empty, a secret is set, the timestamp is fresh and the signature is the base64 MAC over the upper-cased method, the path and the signed body |
| `Gate.FailureClasses` | main.py:158-170 | With credentials and a secret, the outcome is forward, 401 "Invalid or expired signature", or an escaping exception. The exception happens exactly for a fresh timestamp with a non-ASCII signature, and a stale or unparseable timestamp is always a 401 |
| `Gate.MissingCredentialsIgnoreBodyAndSecret` | main.py:137-148 | When a credential is missing, the decision does not depend on the body or on the secret |
| `Gate.BodyIgnoredForBodylessMethods` | main.py:150-156 | For GET, HEAD and DELETE, compared after upper-casing the method, the body does not affect the decision |
| `Gate.BodySignedForOtherMethods` | main.py:150-170 | For every other method, once credentials and secret are present, the gate forwards exactly when the signature check on the full request body succeeds and lets the exception escape exactly when that check raises; a forwarded signature decodes to the MAC of a message ending in the body |
| `Gate.QueryNotSigned` | main.py:151 | The query string has no effect on the decision. This rests on the signed path being `request.url.path`, which excludes the query |
| `Gate.UpperAsciiIdempotent` | main.py:150 | Upper-casing twice is upper-casing once |
| `Gate.MethodCaseIrrelevant` | main.py:150 | A method's letter case does not change the decision |
| `Schedule.ParseDay` | models/presenter.py:7-15 | A day token is accepted exactly when it is one of the seven full lower-case names, and it maps to the day with that name |
| `Schedule.DayNameRoundTrip` | models/presenter.py:7-15 | Each day's name is accepted and maps back to that day |
| `Schedule.NoAliases` | models/presenter.py:21 | `Monday`, `mon` and `MONDAY` are rejected |
| `Schedule.LexLessFirstDifference` | models/presenter.py:37 | `LexLess` is Python's `<` on `str`: past a common prefix, the first differing code point decides, and a proper prefix is less |
| `Schedule.LexLessIrreflexive` | models/presenter.py:37 | No string is lexically less than itself |
| `Schedule.LexLessTotal` | models/presenter.py:37 | Two different strings are lexically ordered one way or the other |
| `Schedule.LexLessAsymmetric` | models/presenter.py:37 | Lexical `<` never holds both ways round |
| `Schedule.Minutes` | models/presenter.py:17 | A strict `HH:MM` time denotes a minute of the day in [0, 1440) |
| `Schedule.FormatTime` | models/presenter.py:17 | Every minute of the day has a strict `HH:MM` spelling denoting it |
| `Schedule.FormatMinutes` | models/presenter.py:17 | A strict time is determined by the minute it denotes |
| `Schedule.TimeMatches` | models/presenter.py:17 | The pattern as written accepts every strict `HH:MM` time; on five ASCII characters it accepts exactly the strict times; any other text it accepts is a five-character match followed by one line feed |
| `Schedule.DecimalDigitAscii` | models/presenter.py:17 | `\d` matches exactly `0`-`9` among ASCII characters |
| `Schedule.RejectedTimes` | models/presenter.py:17 | `24:00`, `8:00` and `12:60` are rejected |
| `Schedule.LexOrderIsChronological` | models/presenter.py:35 | For strict times, lexical `<` coincides with `<` on minutes since midnight |
| `Schedule.ValidateSlotWith` | models/presenter.py:20-39 | A slot is accepted exactly when the day is a valid name, `start` and `end` are present and pass the time check, and `end <= start` does not hold against a non-empty `start`. Accepted times are returned unchanged |
| `Schedule.ValidateSlotAsWritten` | models/presenter.py:20-39 | The validators as written accept every slot the strict validator accepts, unchanged, and an accepted slot with strict times is exactly the strict validator's result: the two differ only on non-strict times |
| `Schedule.ValidateSlot` | models/presenter.py:20-39 | With strict times, every accepted slot starts strictly before it ends within one day |
| `Schedule.WellFormedSlotValidates` | models/presenter.py:25-39 | Every slot with strict times and start before end is accepted unchanged |
| `Schedule.OvernightSlotRejected` | models/presenter.py:32-39 | A 23:00-00:00 slot is rejected: slots never span midnight |
| `Schedule.EmptySlotRejected` | models/presenter.py:37-38 | `end == start` is rejected |
| `Schedule.NoRangeCheckWithoutValidStart` | models/presenter.py:36-37 | When `start` is absent or failed its format check, no range error is reported for `end` |
| `Schedule.UnicodeDigitSlotAccepted` | models/presenter.py:17 | The pattern accepts `0٠:00` (Arabic-Indic zero), and a 09:00 to `0٠:00` slot passes the validator as written; the strict validator refuses it |
| `Schedule.TrailingNewlineSlotAccepted` | models/presenter.py:17 | The pattern accepts `12:30\n`, and a 12:30 to `12:30\n` slot of zero length passes the validator as written; the strict validator refuses it |
| `PresenterRequests.ValidateSlots` | requests/presenter_requests.py:10 | For any time check, a slot list is accepted exactly when every element validates; the result has one slot per element, each the validated element. A refusal carries at least one error, and errors are numbered by position |
| `PresenterRequests.RequiredText` | requests/presenter_requests.py:7-9 | A required string is accepted exactly when it is given and non-empty |
| `PresenterRequests.ValidateCreate` | requests/presenter_requests.py:6-10 | For any time check, a create body is accepted exactly when name, voice_id and model_id are non-empty and every slot validates. The strings and the validated slots are kept, an omitted schedule list becomes `[]`, and a refusal carries at least one error |
| `PresenterRequests.ValidateUpdate` | requests/presenter_requests.py:13-17 | For any time check, an update body is refused only for a schedule list with a slot that does not validate. An omitted field stays unset, `null` sets `None`, a given value is set, and a given list is kept element by element |
| `PresenterRequests.CreatedSlotsWellFormed` | requests/presenter_requests.py:4-10 | With the strict time check, every slot of an accepted create request has strict times with start before end |
| `PresenterRequests.CreateAsWrittenAcceptsZeroLengthSlot` | requests/presenter_requests.py:10 | With the pattern as written, a create body whose slot runs from `12:30` to `12:30\n` is accepted; the strict check refuses it |
| `PresenterRequests.EmptyNameCreateVersusUpdate` | requests/presenter_requests.py:7-14 | An empty name is rejected on create as too short, but an update may set it |
| `PresenterRequests.EmptyUpdateSetsNothing` | requests/presenter_requests.py:13-17 | Every update field is optional: an empty update body is accepted with nothing set |
| `PresenterRequests.UpdateSlotsWellFormed` | requests/presenter_requests.py:17 | With the strict time check, a schedule list supplied in an update holds only well-formed slots |
| `Presenters.Dump` | main.py:210 | The dump holds an entry for exactly the explicitly set fields, each with its supplied value, in declaration order and so at most once per field |
| `Presenters.ApplyAll` | main.py:211-212 | Assigning a list of entries in order leaves every field no entry names unchanged, and the last entry is the one that shows |
| `Presenters.ApplyAllAppend` | main.py:211-212 | Performing two lists of assignments in turn is performing their concatenation |
| `Presenters.UpdateChangesExactlySetFields` | main.py:210-212 | The merge gives each explicitly set field its supplied value, `null` included, and leaves every other field as it was; a supplied schedule list replaces the whole list |
| `Presenters.UpdateIdempotent` | main.py:210-212 | Applying the same update twice equals applying it once |
| `Presenters.Presenter.constructor` | models/presenter.py:42-46 | A new presenter holds the given strings, and its schedule list defaults to empty |
| `Presenters.Presenter.Update` | main.py:211-212 | The loop leaves the presenter equal to the old one with the assignments performed in order |
| `Presenters.CreatePresenter` | main.py:176-181 | The stored presenter carries exactly the validated create request's fields |
| `Presenters.UpdatePresenter` | main.py:210-212 | After the merge each field is the supplied value if set and the old value otherwise |
| `Configuration.ParseField` | requests/update_configuration_request.py:5 | An update names exactly `name` or `description` |
| `Configuration.FindFirst` | main.py:92 | The lookup finds the first document with the field, or reports that none has it |
| `Configuration.Lookup` | main.py:67-85 | A read finds nothing exactly when no document has the field; otherwise it sees the value of the first document with that field |
| `Configuration.UpsertOne` | main.py:92-96 | When the field is stored, only its first document changes. Otherwise one document with the new value is appended. No other document changes |
| `Configuration.LookupAfterUpsertOne` | main.py:92-96 | After one upsert, a read of its field sees the new value and reads of all other fields are unchanged |
| `Configuration.LookupAfterUpsertAll` | main.py:91-96 | After the loop, every field named in the updates reads as its last occurrence's value, and every other field, `genres` included, reads as before |
| `Configuration.UpsertAll` | main.py:91-96 | The loop never removes or reorders documents, and adds at most one per update |
| `Configuration.UpsertAllWhenAllPresent` | main.py:91-96 | When every named field is already stored, the loop only sets first matches to their last values |
| `Configuration.UpsertAllIdempotent` | main.py:91-96 | Sending the same update list twice leaves the store as sending it once |
| `Configuration.ConfigStore.constructor` | models/configuration.py:4-6 | A store holds the given documents |
| `Configuration.ConfigStore.UpdateConfiguration` | main.py:88-96 | The loop leaves the documents equal to the updates applied in list order, first match set or new document inserted |

## Left out

- `lifespan` (loading `.env`, reading the secret and database settings from the
  environment, the database and Redis connections): process I/O. The secret is a
  parameter of `Gate.HmacAuth`, and `None` or empty stands for a missing secret.
- Route registration, response construction, `read_root`, `list_presenters`,
  `get_presenter`, `delete_presenter`, and the document store's `insert`, `save` and
  `delete` calls. These are HTTP and persistence plumbing. The failures those calls can
  raise, which the handlers turn into 500 responses, are not modelled.
- `read_configuration` is modelled only as `Configuration.Lookup`. The `Literal`
  check on its path parameter and the JSON response are left out.
- Signature.Primitives: the internals of SHA-512, HMAC and Python's float parsing are
  given functions, not computed. Float arithmetic is done on reals, so rounding in
  the subtraction from the clock is not modelled.
- `hmac.compare_digest`'s constant running time cannot be expressed; it is equality
  plus the non-ASCII `TypeError`.
- Reading the request body, which is awaited: the body is given as bytes. Printing to
  the console, and the `logger.py` configuration, are left out.
- Gate.UpperAscii: only ASCII letters are upper-cased. HTTP method tokens are ASCII,
  so other characters never reach it.
- Gate.Request: the header lookup is taken as given, as the value of `x-signature` and
  `x-timestamp` or absent. The case-insensitive name match and the handling of
  repeated headers are not modelled.
- Schedule.IsDecimalDigit: lists the decimal-digit runs of the Basic Multilingual
  Plane only. Digits above U+FFFF, which Python's `\d` also matches, are not part of
  this model.
- Schedule.ValidateSlot: strict ASCII `HH:MM` times are the evidently intended check
  (see Findings). The pattern as written is `Schedule.ValidateSlotAsWritten`. The
  request validators in `PresenterRequests` take the time check as a parameter, so
  they model both the program as written (`TimeMatches`) and the corrected check
  (`IsStrictTime`). The well-formedness lemmas `CreatedSlotsWellFormed` and
  `UpdateSlotsWellFormed` hold only for the strict check: the program as written
  accepts zero-length and out-of-order slots (`CreateAsWrittenAcceptsZeroLengthSlot`).
- Request bodies are modelled after JSON decoding, with string and list fields only.
  Pydantic's type coercions for other JSON types are not modelled; an explicit `null`
  is.
- Presenters.Presenter: after an update the schedule list holds the dumped
  dictionaries rather than `ScheduleSlot` objects. The model keeps the slot values,
  which carry the same content.
- Configuration.ConfigStore: a stored value is text or a list of texts. Documents are
  kept in a sequence, and the first match stands for what a find-one query returns.
  Concurrent requests interleaving their upserts are not modelled.

## Findings

| source | as written | input that shows it | evidently intended | confidence | as-written member | corrected member |
|---|---|---|---|---|---|---|
| models/presenter.py:17 | `\d` in a `str` pattern matches every Unicode decimal digit | start `09:00`, end `0٠:00` (U+0660 ARABIC-INDIC DIGIT ZERO): accepted, although as a time it is midnight, before the start | hours and minutes in ASCII digits, so that the lexical check at line 37 is the chronological one | high (documented `re` semantics); not executed | `Schedule.UnicodeDigitSlotAccepted` | `Schedule.LexOrderIsChronological` |
| models/presenter.py:17 | `$` also matches just before a final line feed | start `12:30`, end `12:30\n`: accepted, a slot of zero length | a time of exactly five characters, so that `end` is strictly later than `start` | high (documented `re` semantics); not executed | `Schedule.TrailingNewlineSlotAccepted` | `Schedule.ValidateSlot` |
