# Pastebin paste lifecycle, in Dafny

A model of the paste controller of a small pastebin backend
(`src/controllers/paste.controller.js`). The controller has two handlers:

- `createPaste` runs four checks on the request body, in order, and the first
  one that fails answers 400:
  1. the content must be a non-empty string that is not whitespace only;
  2. the content must be at most 10240 UTF-8 bytes;
  3. a truthy `expiresAt` must parse to a date;
  4. `maxViews` must be absent or an integer of at least 1.

  When every check passes, it stores one record under a freshly drawn id,
  with no views yet.
- `getPaste` answers 404 for an unknown id. It answers 410 for an expired
  paste. Otherwise it adds one to the paste's view count and returns the
  stored content. A paste is expired when its `expiresAt` is set and the
  clock is strictly past it, or when its `maxViews` is set and the view count
  has reached it.

Files:

- `wrappers.dfy` (module `Wrappers`) holds `Option` and `Result`.
- `js_text.dfy` (module `JsText`) holds the two runtime functions the checks
  use. `Trim` is `String.prototype.trim` over the ECMAScript whitespace and
  line-terminator code points. `Utf8Len` is `Buffer.byteLength(s, "utf8")`.
- `paste_controller.dfy` (module `PasteController`) holds the rest:
  - the body fields as JavaScript values;
  - the validation chain `CheckBody`;
  - the expiry predicate `IsExpired`;
  - the pure functions `Create` and `Read`, which say what one call does to
    the store and what it answers;
  - the class `PasteStore`. Its map field `pastes` is the paste table, and
    its methods `CreatePaste` and `GetPaste` update that field in place.
- `paste_lifecycle.dfy` (module `PasteLifecycle`) covers series of reads:
  - a view limit of n allows exactly n successful reads;
  - while the clock does not go back, a 410 is only ever followed by 410s;
  - a created paste reads back its content;
  - the boundaries of the time bound, the view bound and the size bound.

Representation choices:

- Time is an integer number of milliseconds, passed in as `now`.
- The result of `new Date(expiresAt)` is an input: `Falsy`, `Parsed(millis)`
  or `Unparseable`.
- `content` is `Absent` (any falsy value), `NonString` (a truthy non-string)
  or `Text(s)`.
- `maxViews` is `Undefined`, `Int(n)` (`Number.isInteger` holds) or
  `NonInteger`. This last case includes an explicit `null`, which the check
  at line 27-28 rejects.
- The id that `generateId` would draw is a parameter of `createPaste`. If
  that id is already a key, the insert throws and the handler answers 500
  (`InternalError`), leaving the store unchanged. Lookups go through
  `findUnique({ where: { id } })`, which needs `id` to be a unique key.
- A new record starts with `viewCount` 0. This is the table's default, which
  the code does not show.
- The expiry predicate keeps the code's truthiness test. `paste.maxViews &&`
  ignores a limit of 0. `ExpiredIffPolicy` shows that, for any record that
  passed the checks, this is the same as "limit set and reached".

Where the documented API and the code differ, the model follows the code:

- an expired paste answers 410, not 404;
- a read returns only the content, without `remaining_views` or `expires_at`;
- there is no test-clock header and no HTML view;
- `expiresAt` is an absolute time, not a `ttl_seconds`;
- a past `expiresAt` is accepted. The code has no "in the future" check, so
  such a paste is stored already expired (`CreateThenRead`).

## Model

| member | source | states |
|---|---|---|
| `JsText.IsJsWhitespace` | src/controllers/paste.controller.js:8 | The code points that `trim()` removes, per the ECMAScript WhiteSpace and LineTerminator lists. Among ASCII code points exactly TAB, LF, VT, FF, CR and SPACE qualify, and none lies above U+FEFF. |
| `JsText.TrimStart` | src/controllers/paste.controller.js:8 | The leading half of `trim()`: the result is a suffix of the input, everything dropped is whitespace, and the result is empty or starts with a non-whitespace code point. |
| `JsText.TrimEnd` | src/controllers/paste.controller.js:8 | The trailing half of `trim()`: the result is a prefix of the input, everything dropped is whitespace, and the result is empty or ends with a non-whitespace code point. |
| `JsText.Trim` | src/controllers/paste.controller.js:8 | `content.trim()`: the result is a contiguous piece of the content, everything cut off on either side is whitespace, and the result neither starts nor ends with whitespace. |
| `JsText.TrimEmptyIffBlank` | src/controllers/paste.controller.js:8 | `content.trim() === ""` holds exactly when every code point of the content is whitespace, in both directions. |
| `JsText.Utf8Width` | src/controllers/paste.controller.js:14 | UTF-8 uses 1 to 4 bytes per code point, and 1 byte exactly for ASCII. |
| `JsText.Utf8Len` | src/controllers/paste.controller.js:14 | The UTF-8 byte length of a string lies between its code-point count and four times that count. |
| `JsText.Utf8LenIsLengthIffAscii` | src/controllers/paste.controller.js:14 | The byte length equals the code-point count exactly when every code point is ASCII, in both directions. |
| `PasteController.Message` | src/controllers/paste.controller.js:8-33 | The `error` text of each 400 answer, one per check, as the source writes them at lines 11, 15, 22 and 32; every text is non-empty. |
| `PasteController.MessagesDistinct` | src/controllers/paste.controller.js:8-33 | No two checks share a text, so the text alone says which check refused the body. |
| `PasteController.CheckBody` | src/controllers/paste.controller.js:8-33 | The first failing check decides the error. Missing, non-string or whitespace-only content gives "content required" whatever the other fields are. Content over 10240 bytes comes next, then an unparseable `expiresAt`, then a `maxViews` that is present but not an integer of at least 1 (`null` included). The body is accepted exactly when all four checks pass. The accepted draft keeps the content as sent, the parsed expiry (none for a falsy field) and the limit (none when absent). |
| `PasteController.Create` | src/controllers/paste.controller.js:6-48 | A rejected body leaves the store as it was and answers with the check's error. If the drawn id is already taken, the answer is 500 and the store is unchanged. Otherwise exactly one record is added under the new id, holding the validated fields and zero views, and every other record is unchanged. |
| `PasteController.CreateAnswers` | src/controllers/paste.controller.js:8-52 | The status and `error` text of a create: 400 with the failing check's text exactly when a check fails, 500 with "Internal server error" exactly when the drawn id is taken, and 200 with no error text otherwise. |
| `PasteController.CreateKeepsInvariant` | src/controllers/paste.controller.js:35-44 | Every stored record sits under its own id and passed the checks, and an insert keeps it so. |
| `PasteController.PastExpiry` | src/controllers/paste.controller.js:69 | The time half of the policy. It can hold only when an expiry is set, and the bound is strict: false at `now == expiresAt`, true one millisecond later. |
| `PasteController.ViewsUsedUp` | src/controllers/paste.controller.js:70 | The count half of the policy, keeping the source's truthiness test `paste.maxViews &&`. It can hold only for a set, non-zero limit, and for a limit of at least 1 it holds exactly when the view count has reached the limit. |
| `PasteController.IsExpired` | src/controllers/paste.controller.js:67-70 | The expiry predicate, the disjunction of the two halves with the source's truthiness tests kept as they are. A paste with neither an expiry nor a limit never expires, and a limit of 0 leaves only the time bound in force. `PasteLifecycle.ExpiredIffPolicy` gives the plain form for records that passed the checks. |
| `PasteController.Read` | src/controllers/paste.controller.js:57-81 | An unknown id gives 404 with "Paste not found" and an expired record gives 410 with "Paste expired", both with the store unchanged; the status is 404 or 410 exactly in those cases. The answer is the stored content exactly when the record exists and is not expired. In that case only that record's view count changes, by exactly 1. No key is added or removed, and no other record changes. |
| `PasteController.ReadKeepsInvariant` | src/controllers/paste.controller.js:76-79 | Counting a view keeps every stored record well formed. |
| `PasteController.PasteStore.CreatePaste` | src/controllers/paste.controller.js:4-53 | The handler updates the store in place. Its answer and the new table are those of `Create` on the old table, and the store invariant is kept. |
| `PasteController.PasteStore.GetPaste` | src/controllers/paste.controller.js:55-86 | The handler updates the store in place. Its answer and the new table are those of `Read` on the old table, and the store invariant is kept. Because the store holds only validated records, it answers 410 exactly when the expiry is set and `now` is past it, or the limit is set and the view count has reached it. |
| `PasteLifecycle.ReadAll` | src/controllers/paste.controller.js:59-81 | Over a series of reads of one id, the store keeps the same keys, and no field other than that id's view count changes. That count grows by exactly the number of 200 answers. |
| `PasteLifecycle.ExpiredIffPolicy` | src/controllers/paste.controller.js:67-70 | For a record that passed the checks, it is expired iff its expiry is set and `now` is strictly after it, or its limit is set and the view count has reached it. |
| `PasteLifecycle.ValidStoreCleanPolicy` | src/controllers/paste.controller.js:67-74 | In a store of validated records, a read answers 410 exactly when the expiry is set and `now` is strictly past it, or the limit is set and the view count has reached it. |
| `PasteLifecycle.ExpiryInstantIsLive` | src/controllers/paste.controller.js:69 | The time bound is strict: a record is live at `now == expiresAt` and expired one millisecond later. |
| `PasteLifecycle.LimitReachedIsExpired` | src/controllers/paste.controller.js:70 | The view bound is not strict: with limit n, a record is live after n - 1 views and expired after n. |
| `PasteLifecycle.ExpiryMonotone` | src/controllers/paste.controller.js:67-70 | A later clock and a higher view count never turn an expired record back into a live one. |
| `PasteLifecycle.StaysExpired` | src/controllers/paste.controller.js:63-74 | Once a record is expired at time t, every read at t or later answers 410 and leaves the store unchanged. |
| `PasteLifecycle.ExpiryIsTerminal` | src/controllers/paste.controller.js:67-74 | While the clock does not go back, a 410 answer is followed only by 410 answers. |
| `PasteLifecycle.ViewLimitAdmitsExactly` | src/controllers/paste.controller.js:70-81 | With limit n, a record with v views, and a time bound not yet passed, read number i succeeds iff v + i < n and otherwise answers 410. The count ends at min(v + reads, n). |
| `PasteLifecycle.CreatedWithLimitServesExactly` | src/controllers/paste.controller.js:26-44 | Take a paste created with `maxViews` n and no expiry. Its first n reads return its content, every later read answers 410, and exactly min(reads, n) reads are served. |
| `PasteLifecycle.CreateThenRead` | src/controllers/paste.controller.js:37-44 | Right after a successful create, reading the new id returns the submitted content. The one exception is a submitted expiry already before the time of the read, which answers 410. |
| `PasteLifecycle.SizeLimitBoundary` | src/controllers/paste.controller.js:14-16 | The size bound is strict: non-blank ASCII content of exactly 10240 characters passes the size check, and 10241 characters gives "too large". |

## Left out

- Database I/O (`prisma.paste.create`, `findUnique`, `update`) and the Express
  `req`/`res` objects. The store is a map field, and answers are values.
- The gap between the lookup at line 59 and the increment at line 76, where
  two concurrent reads can both pass the expiry check. Each read is one
  sequential step in the model.
- `generateId` (`src/lib/id.js`), which uses random bytes and a base64url
  encoding. The drawn id is an input.
- The `url` in the create response, built from the request host. The model
  answers with the id only.
- `console.error` logging, and the 500 answers for store failures other than
  a taken id (lines 49-52 and 82-85).
- Date parsing with `new Date(...)` and the system clock. Their results are
  inputs. The range limit of JavaScript dates is not modelled.
- Column widths of the table schema, which is not part of this model. A
  `maxViews` or `viewCount` too large for the column is stored as an
  unbounded integer.
- JavaScript strings are UTF-16. A lone surrogate, which `Buffer.byteLength`
  counts as 3 bytes, cannot occur in a Dafny string.
- `src/server.js` and `src/routes/paste.routes.js`, which only wire routes.
  The routes import `viewPaste` and `healthCheck`, but the controller does not
  export them, so neither has anything to model.
