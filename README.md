# TinyLink short-link engine in Dafny

TinyLink is a URL shortener: a client posts a long URL, optionally with a
custom short code, and the server stores a row in its `links` table; a visit
to `/<code>` redirects to the stored URL and counts the click (except for
the codes that the `/healthz` route shadows; see "Left out"). This project
models the server's allocation and resolution engine (`server/index.js`):

- `ShortCodes` (`shortcodes.dfy`): the 62-letter alphabet, the six-draw code
  generator (`GenerateShortCode`, the six-step loop of `generateShortCode`
  over its `chars` constant), and the custom
  code check `^[A-Za-z0-9]{6,8}$`, written as an anchored match of a
  character class repeated 6 to 8 times (`MatchesClassRepeat`) and proved
  equal to "6 to 8 characters, all alphanumeric".
- `Links` (`links.dfy`): the `links` table as a value (`Table`: rows keyed by
  `short_code`, the next id and a logical clock) with its invariant `Valid`.
  The routes that write (`CreateLink`, with `Insert`, the insert under the
  unique constraint; `DeleteLink`; `RedirectLink`, with `IncrementClicks`,
  the update by id) are functions from the table before to the response and
  the table after; the read-only routes `GetLink` and `ListLinks` map the
  table to a response or a listing. The lemmas state what the routes
  promise.
- `Store` (`store.dfy`): class `LinkStore`, the shared table as fields that
  the handlers update in place; `Create`, `Delete` and `Redirect` are methods
  with `modifies this`, each proved to produce exactly the response and the
  table that the matching `Links` function gives, so the lemmas carry over.
  `Get` and `List` are functions that read the store.

Request fields `url` and `shortCode` are `Option<string>`; JavaScript's
falsy test (`!url`, `if (code)`) is `IsPresent`: absent or `""` is falsy.
The random draws `Math.floor(Math.random() * 62)` are a parameter `picks`
of six indices below 62. Timestamps (`created_at`, `last_clicked_at`) are
ticks of a logical clock that advances on every insert and every counted
click, so creation ticks are distinct and `ORDER BY created_at DESC` is a
total order.

Two behaviours are modelled as the code has them, not as a design for
this kind of service might expect:

- The code has no collision-retry loop for generated codes. A generated
  code that is already taken gets the same 409 "Short code already exists."
  as a taken custom code (`CreateOutcome`), and no bounded retry or
  store-failure outcome for exhausted retries exists.
- The click increment is issued without waiting for it. Its effect is
  modelled as an atomic `click_count + 1` on the row with that id, applied
  before the redirect is returned.

## Model

| member | source | states |
|---|---|---|
| ShortCodes.AlphabetLayout | server/index.js:21 | the alphabet constant has 62 letters: A-Z at 0-25, a-z at 26-51, 0-9 at 52-61 |
| ShortCodes.AlphabetInjective | server/index.js:21 | no letter occurs twice in the alphabet |
| ShortCodes.MatchesClassRepeat | server/index.js:44 | an anchored match of `[A-Za-z0-9]{lo,hi}` only succeeds on a string of length lo..hi (its exact language is `MatchesClassRepeatIff`) |
| ShortCodes.IsValidCustomCode | server/index.js:44 | a code that passes `/^[A-Za-z0-9]{6,8}$/` has 6 to 8 characters (both directions are `ValidCustomCodeIff`) |
| ShortCodes.MatchesClassRepeatIff | server/index.js:44 | the anchored match of `[A-Za-z0-9]{lo,hi}` accepts exactly the strings of length lo..hi whose characters are all alphanumeric |
| ShortCodes.ValidCustomCodeIff | server/index.js:44-46 | a custom code passes the check iff its length is 6 to 8 and every character is in A-Z, a-z, 0-9 |
| ShortCodes.CustomCodeSamples | server/index.js:44-46 | "abc123" passes; "ab" (too short), "abc!23" (bad character) and "123456789" (too long) fail |
| ShortCodes.GeneratedCode | server/index.js:22-25 | the code spelled by the draws has one letter per draw |
| ShortCodes.GenerateShortCode | server/index.js:20-27 | the loop returns the six alphabet letters chosen by the draws, in order: six characters, all alphanumeric |
| ShortCodes.GeneratedCodeIsValid | server/index.js:20-27 | every generated code has length 6, is alphanumeric, and passes the custom-code check |
| ShortCodes.GeneratorReachesEveryCode | server/index.js:20-27 | every six-character alphanumeric code is produced by some draws |
| ShortCodes.GeneratorInjective | server/index.js:20-27 | different draws produce different codes |
| Links.ChosenCode | server/index.js:41-49 | the code create tries to insert is the custom code verbatim when it is present, otherwise a six-character generated code that itself passes the custom-code check |
| Links.Insert | server/index.js:52-60 | the insert succeeds iff the code is not yet stored; on success the new row has the given URL and code, 0 clicks and no click time, and the rows are the old rows plus that one; on a taken code it answers 409 "Short code already exists." and the table is unchanged |
| Links.CreateLink | server/index.js:37-64 | create answers 201, 400 or 409 only; every non-201 answer leaves the table unchanged; a 201 needs a present URL and adds exactly the new code to the stored codes (the full case split is `CreateOutcome`) |
| Links.CreateOutcome | server/index.js:37-64 | create answers 400 "URL is required" iff the URL is absent or empty; else 400 with the format message iff a present custom code is not 6-8 alphanumerics; else 409 "Short code already exists." iff the chosen code, custom or generated, is already stored; 201 iff the URL is present, the custom code is absent or 6-8 alphanumerics, and the chosen code is not stored; every non-201 answer leaves the table unchanged |
| Links.CreateAddsOneRow | server/index.js:41-56 | a 201 adds exactly one row, under a code not stored before, with the given URL, the custom code verbatim (or a six-character alphanumeric generated code), click count 0 and no click time; all earlier rows are kept; the row can then be fetched by its code |
| Links.InsertPreservesValid | server/index.js:52-60 | inserting a well-formed code with a non-empty URL, or failing on a taken code, keeps the table invariant |
| Links.CreatePreservesValid | server/index.js:41-60 | create keeps the table invariant: codes unique and well-formed, URLs non-empty, ids and creation ticks unique |
| Links.Lookup | server/index.js:81 | the lookup finds a row iff the code is stored; the row found is the stored row under that code, and it carries that code |
| Links.GetLink | server/index.js:78-90 | get-one answers 200 iff the code is stored, with the stored row itself (its URL, click count and times), otherwise 404 "Link not found" |
| Links.ListFrom | server/index.js:69 | the listing of a set of codes holds each of their rows once and nothing else, with creation ticks strictly decreasing |
| Links.ListLinks | server/index.js:67-75 | list returns every row of the table exactly once, newest first |
| Links.NewestFirstIsUnique | server/index.js:69 | two newest-first sequences with the same rows are equal |
| Links.ListingIsDetermined | server/index.js:69 | any sequence holding exactly the table's rows, newest first, is the listing, so the order is fully determined |
| Links.DeleteLink | server/index.js:93-105 | delete answers 204 iff the code is stored, otherwise 404 "Link not found" with the table unchanged; afterwards the rows are the old rows without that code |
| Links.DeleteOutcome | server/index.js:93-105 | deleting a stored code answers 204 and removes exactly that row, after which get and redirect answer 404; an unknown code answers 404 "Link not found" and changes nothing |
| Links.DeletePreservesValid | server/index.js:96-100 | delete keeps the table invariant |
| Links.IncrementClicks | server/index.js:122-125 | the update by id keeps the set of stored codes |
| Links.IncrementTouchesOneRow | server/index.js:119-125 | since ids are unique, the update by the found row's id bumps that row's click count and click time and no other row |
| Links.RedirectLink | server/index.js:109-134 | the redirect route answers a redirect iff the code is stored, to that row's URL, keeping the set of stored codes; an unknown code answers 404 "Link not found" with the table unchanged (the per-row effect is `RedirectOutcome`) |
| Links.RedirectOutcome | server/index.js:109-128 | an unknown code answers 404 and changes nothing; a known code redirects to its stored URL, its click count grows by exactly 1, its click time is set, and every other row is unchanged |
| Links.RedirectPreservesValid | server/index.js:113-125 | redirect keeps the table invariant |
| Links.VisitsKeepValid | server/index.js:113-125 | any number of visits keeps the table invariant |
| Links.VisitsAreAllCounted | server/index.js:122-125 | when ids are unique, n visits to a stored code raise its click count by exactly n, keep its URL and leave every other row alone |
| Links.CreateVisitDelete | server/index.js:37-134 | creating a link with a generated code, visiting it, deleting it and visiting again gives 201 with a six-character code and 0 clicks, a redirect to the URL with 1 click, 204, then 404 |
| Store.LinkStore.constructor | server/index.js:14-17 | a new store holds an empty, valid table (a stand-in for the connected database; see "Left out") |
| Store.LinkStore.Create | server/index.js:37-64 | the handler answers and updates the table exactly as CreateLink: on 201 one row is added under a fresh code, otherwise the rows are untouched; the invariant is kept |
| Store.LinkStore.Get | server/index.js:78-90 | the handler answers 200 iff the code is stored, with the stored row itself, otherwise 404 "Link not found" |
| Store.LinkStore.List | server/index.js:67-75 | the handler lists every stored row, newest first |
| Store.LinkStore.Delete | server/index.js:93-105 | the handler answers 204 iff the code was stored, removes exactly that row, and a following get answers 404 |
| Store.LinkStore.Redirect | server/index.js:109-134 | the handler answers 404 without change for an unknown code; for a known code it redirects to the stored URL and bumps that row alone |

## Left out

- Express routing, middleware, CORS, JSON parsing, HTTP status plumbing,
  `app.listen` and the `/healthz` route: responses are the `Response`
  constructors, with the status in a comment.
- Route precedence: `GET /healthz` (server/index.js:31-33) is registered
  before `GET /:code` (server/index.js:109) and Express matches paths
  without regard to case, so a visit to any case variant of `healthz`
  (`healthz`, `HealthZ`, ...) gets the health answer. Those variants are
  valid 7-character custom codes, so create accepts them with a 201, but
  a visit to one never reaches the redirect handler and counts no click.
  `RedirectLink` and `Store.LinkStore.Redirect` model the handler alone and
  would redirect such a code.
- The `pg` pool and the SQL text: the table is an in-memory map. The 500
  "Server error" branches of every route are not modelled, because the
  in-memory table cannot fail.
- Request fields that are not strings (a number or an object in the JSON
  body): only absent, empty and non-empty strings are modelled.
- `Math.random`: the six draws are a parameter; their distribution and
  unpredictability are not modelled.
- Asynchrony of the click update and concurrent requests: each handler runs
  atomically; lost updates and interleavings belong to the database.
- Wall-clock time: `created_at` and `last_clicked_at` are logical ticks, so
  two rows never share a creation time; ties in the database's ordering are
  not modelled.
- The `id` sequence: the model advances it only on a successful insert; a
  database sequence may also be consumed by an insert that fails.
- The contents of the database at start-up: the pool in server/index.js:14-17
  connects to an existing `links` table that may already hold rows, while a
  new `LinkStore` starts empty. Nothing depends on that start: every route's
  contract, and every lemma, holds for any table satisfying `Valid`.
- client/src/App.jsx and client/src/api.js: browser UI and fetch wrappers.
