# TinyLink back end: short-code allocation and click counting

A Dafny model of the TinyLink URL shortener's back end. Clients create a
short alphanumeric code for a long `http`/`https` URL (`POST /api/links`),
list, read and delete links (`GET /api/links`, `GET /api/links/:code`,
`DELETE /api/links/:code`), and visiting `/:code` redirects to the target
while counting the click.

The PostgreSQL `links` table becomes a class, `Store.LinkTable`, whose field
`rows` maps each code to its row (`targetUrl`, `totalClicks`,
`lastClickedAt`, `createdAt`, `updatedAt`). The statements that change the
table (`INSERT`, `DELETE`, the click `UPDATE`) are methods of that class,
each taken as one atomic step. The existence probe (`SELECT 1 … LIMIT 1`) is
a function of the class that reads it. The two read-only queries are
over the table's current `rows` value: GET by code is the function
`Links.Get`, and the ordered list is the method `Links.List`. The handlers
return a `Result`: a value, or an `Error` whose constructor is the HTTP
status (400, 404, 409, 500).

Modules, one per concern of the source:

- `Responses`: `Option`, `Result` and the `Error` kinds with their status codes.
- `Codes`: `CODE_REGEX` and `generateRandomCode`. The regex is a small
  anchored bounded-repetition matcher over the class `[A-Za-z0-9]`. It is
  proved to accept exactly the strings of 6 to 8 ASCII letters and digits.
  The alphabet `CODE_CHARS` is proved to hold 62 distinct characters, which
  are exactly the ASCII letters and digits. The generator is a loop that
  appends one character per draw.
- `Validation`: `validateTargetUrl` and `validateCustomCode`.
- `Store`: the table, its rows and its SQL statements (probe, insert, delete,
  click update).
- `Links`: `mapRowToLink` and the four `/api/links` handlers. The POST
  handler's bounded generation loop is `GenerateUniqueCode`. The whole
  outcome of a POST is specified by the function `PlanCreate`.
- `Redirect`: the `GET /:code` handler, plus lemmas about runs of redirects.

Inputs the source takes from its environment are parameters:

- `Math.random`: a sequence of draws, each an index into `CODE_CHARS`
  (`CharIndex`, 0 to 61).
- `new URL(...)`: the URL parser of the WHATWG URL Standard, section 4.4
  ("URL parsing"). It is a function parameter that returns the parsed
  protocol, or `None` where the constructor throws.
- `NOW()`: a timestamp argument.
- `getBaseUrl(req)`: a base-URL string.
- The column defaults that the `INSERT` leaves to the database: a
  `ColumnDefaults` value.

Where the specification and the code differ, the model follows the code:

- The specification has the store set `totalClicks = 0` and the timestamps
  to now on insert. The code's `INSERT` names only `code` and `target_url`
  and leaves the rest to column defaults, which are not shown. So the
  defaults are a parameter.
- The specification allows one regenerate-and-retry when the insert of a
  generated code hits a duplicate key. The code has no such retry: the
  database error goes to the Express error handler as a 500. `Create`
  models that path as `ServerError(DUPLICATE_KEY)`. Under the atomic model
  this path cannot happen, because the pre-check has just seen the code
  free.
- The code counts collisions in `attempts` and stops when `attempts >= 5`.
  So at most five candidates are drawn, as the specification says.

## Model

| member | source | states |
|---|---|---|
| Codes.MatchesRepeatIff | tinylink-backend/src/routes/links.js:7 | An anchored `[class]{lo,hi}` accepts a string iff its length is in lo..hi and every character is in the class |
| Codes.IsCodeIff | tinylink-backend/src/routes/links.js:7 | `CODE_REGEX` accepts s iff 6 <= \|s\| <= 8 and every character is an ASCII letter or digit (both directions) |
| Codes.AlphabetIndexInverse | tinylink-backend/src/routes/links.js:9 | `CODE_CHARS` has 62 characters; position-of and indexing are inverse to each other, on all 62 indices and all ASCII alphanumerics |
| Codes.AlphabetIsAlnum | tinylink-backend/src/routes/links.js:9 | A character is in `CODE_CHARS` iff it is an ASCII letter or digit, and no character occurs twice |
| Codes.AlphabetSpelled | tinylink-backend/src/routes/links.js:9 | `CODE_CHARS` is A–Z, then a–z, then 0–9, each in ascending order |
| Codes.CodeFromDrawsAt | tinylink-backend/src/routes/links.js:55-58 | Character k of a generated code is `CODE_CHARS[draw k]` |
| Codes.GenerateRandomCode | tinylink-backend/src/routes/links.js:53-60 | The loop returns exactly `length` characters, and character i is `CODE_CHARS[draws[i]]` |
| Codes.GeneratedCodeIsCode | tinylink-backend/src/routes/links.js:53-60 | Every generated code of length 6 to 8, in particular the default 6, passes `CODE_REGEX` |
| Codes.GeneratedCodeInjective | tinylink-backend/src/routes/links.js:53-60 | Different draw sequences produce different codes |
| Codes.EveryCodeIsGenerable | tinylink-backend/src/routes/links.js:53-60 | Every string `CODE_REGEX` accepts is produced by some draw sequence of its length |
| Validation.ValidateTargetUrl | tinylink-backend/src/routes/links.js:12-35 | Missing/empty gives 400 "required"; unparseable gives 400 "Invalid URL format"; a protocol other than `http:`/`https:` gives 400; otherwise the input is returned unchanged (iff) |
| Validation.TargetUrlIdempotent | tinylink-backend/src/routes/links.js:34 | An accepted URL is accepted again as itself (no normalisation) |
| Validation.FtpUrlRejected | tinylink-backend/src/routes/links.js:28-32 | A URL whose protocol is `ftp:` is refused with the protocol 400 |
| Validation.ValidateCustomCode | tinylink-backend/src/routes/links.js:38-50 | A falsy code means "none"; a code failing `CODE_REGEX` gives 400; otherwise the code is returned as given (iff) |
| Validation.CustomCodeIdempotent | tinylink-backend/src/routes/links.js:49 | An accepted custom code passes `CODE_REGEX` and is accepted again as itself (no case folding) |
| Links.MapRowToLink | tinylink-backend/src/routes/links.js:70-79 | The link carries the code and every field of the row unchanged, and `shortUrl = baseUrl + "/" + code` |
| Links.ShortUrlDeterminesCode | tinylink-backend/src/routes/links.js:74 | Under one base URL, equal short URLs imply equal codes |
| Links.FirstFreeCandidateFrom | tinylink-backend/src/routes/links.js:112-133 | From any attempt k: success returns the first free candidate at or after k; failure iff all candidates k..4 collide, and then the error is the 500 |
| Links.FirstFreeCandidateSpec | tinylink-backend/src/routes/links.js:112-133 | Without a custom code: the first of the five candidates not in the table, or 500 exactly when all five collide |
| Links.FirstFreeCandidateUsesFiveCandidates | tinylink-backend/src/routes/links.js:112-127 | The outcome depends only on the first 5 × 6 draws: at most five candidates are examined |
| Links.GeneratedCodeFresh | tinylink-backend/src/routes/links.js:115-124 | A generated code is absent from the table, has length 6 and passes `CODE_REGEX` |
| Links.GenerateUniqueCode | tinylink-backend/src/routes/links.js:112-133 | The bounded `while (!finalCode)` loop returns the first-free-candidate outcome |
| Links.PlanCreateFresh | tinylink-backend/src/routes/links.js:92-134 | Whatever code a successful POST uses is absent from the table beforehand and passes `CODE_REGEX` |
| Links.PlanCreateBadUrl | tinylink-backend/src/routes/links.js:92 | An invalid target URL fails the POST with its 400, checked before the custom code |
| Links.PlanCreateCustomCode | tinylink-backend/src/routes/links.js:96-109 | A well-formed custom code that is taken gives 409; a free one is used exactly as given |
| Links.PlanCreateGenerated | tinylink-backend/src/routes/links.js:110-133 | A falsy custom code leads to the generation loop, and five collisions give the 500 |
| Links.Create | tinylink-backend/src/routes/links.js:87-154 | On error the table is unchanged; on success exactly one row is added under the fresh code with the requested URL and the defaults, every old row is kept, and the response is that row mapped; keys stay well formed |
| Links.Get | tinylink-backend/src/routes/links.js:183-216 | A bad format gives 400, then an absent code gives 404; otherwise exactly `mapRowToLink` of that code's row, short URL included (iff) |
| Links.GetAfterCreate | tinylink-backend/src/routes/links.js:137-150 | After a successful create, GET of the new code returns the requested URL and the default counters |
| Links.Delete | tinylink-backend/src/routes/links.js:222-247 | A bad format gives 400 and an absent code gives 404, both with the table unchanged; otherwise exactly that row is removed (204) |
| Links.GetAfterDelete | tinylink-backend/src/routes/links.js:227-243 | After a delete, GET of that code gives 404 and GET of every other code is unchanged |
| Links.ListStep | tinylink-backend/src/routes/links.js:162-171 | Appending the newest remaining row keeps the listed part newest first, duplicate-free and complete |
| Links.List | tinylink-backend/src/routes/links.js:160-177 | Each row is listed exactly once, as `mapRowToLink` of that row, ordered by `created_at` descending |
| Store.LinkTable.Insert | tinylink-backend/src/routes/links.js:137-144 | A duplicate code is refused with the table unchanged; otherwise exactly the new row is added |
| Store.LinkTable.DeleteByCode | tinylink-backend/src/routes/links.js:233-238 | rowCount is 1 iff the code was present, and then exactly that row is gone |
| Store.LinkTable.RecordClickAndFetch | tinylink-backend/src/routes/redirect.js:21-32 | An absent code leaves the table unchanged and returns nothing; otherwise the row is clicked in one step and its unchanged URL is returned |
| Redirect.Redirect | tinylink-backend/src/routes/redirect.js:10-46 | A bad segment or an absent code gives 404 with the table unchanged; otherwise 302 to the row's URL, and only that row is updated, by exactly one click |
| Redirect.RedirectTouchesOneRow | tinylink-backend/src/routes/redirect.js:23-28 | Keys unchanged, other rows unchanged; the visited row gets +1 click, both timestamps become now, and its URL and creation time stay |
| Redirect.RedirectsCommute | tinylink-backend/src/routes/redirect.js:21-32 | Redirects to two different codes give the same table in either order |
| Redirect.EveryClickCounted | tinylink-backend/src/routes/redirect.js:25 | After any run of redirects, each well-formed code's counter rose by exactly the number of visits to it (no lost updates); keys, URL and creation time are unchanged |
| Redirect.EveryClickCountedInTable | tinylink-backend/src/routes/redirect.js:25-28 | In a table whose keys are all well-formed codes, as the handlers keep it, every row's counter rose by exactly its visits |
| Redirect.CountersNeverDecrease | tinylink-backend/src/routes/redirect.js:25 | No run of redirects lowers any counter or removes any row |
| Redirect.RepeatedRedirects | tinylink-backend/src/routes/redirect.js:23-27 | N redirects of a present code raise its counter by exactly N and leave both timestamps at the last visit's time |
| Redirect.RedirectKeepsCodesWellFormed | tinylink-backend/src/routes/redirect.js:28 | Redirects keep every key of the table a well-formed code |

## Left out

- Concurrency: each handler is one atomic step on the table. Interleavings
  of redirects are covered only as sequences of atomic updates
  (`EveryClickCounted`). The race between the custom-code pre-check and the
  `INSERT` is not modelled.
- `Math.random` and `Math.floor`: floating-point randomness, replaced by the
  draws oracle. `GenerateRandomCode` and the POST handler require the oracle
  to supply enough draws (`length`, or 5 × 6 for POST). Uniformity of the
  draws is not modelled.
- URL parsing: the parser's internals are behind the parser parameter. Only
  its failure and the `protocol` it returns are modelled.
- `getBaseUrl` reads `BASE_URL` and the request's protocol and host. It is
  replaced by the base-URL parameter.
- The database's own behaviour: the connection pool and health check
  (`db.js`), connection failures (a 500 through the error handler), the
  serial `id` column, and the actual column defaults.
- Express wiring (`index.js`): routing, JSON parsing, CORS, logging, and the
  conversion of a thrown error's `status` into a response. The model's
  `Error` constructors carry those statuses directly. Success statuses
  (201, 200, 204, 302) are represented by `Ok`.
- Request fields are modelled as optional strings. Non-string JSON values
  (numbers, objects) that JavaScript would coerce are not modelled.
- JavaScript strings are UTF-16 code units, and Dafny's `char` is a Unicode
  scalar value. Lengths and characters can differ only outside ASCII, where
  the regex refuses anyway.
- `total_clicks` is an unbounded `nat`. The real column type, which is not
  part of this model, bounds it: an `UPDATE` that overflowed it would fail
  and reach the error handler as a 500.
- `Ok(url)` from `Redirect.Redirect` stands for `res.redirect(302, url)`.
  Express encodes the URL into the `Location` header; the model returns the
  stored string as it is.
- The invariant that `lastClickedAt` is not earlier than `createdAt` is not
  modelled, because NOW() is an unconstrained parameter.
- The whole front end (`tinylink-frontend/`) is not part of this model: it is
  view state and an HTTP client.
