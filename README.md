# Link shortener core, modelled in Dafny

This project models the backend of a URL-shortening service
(`backend/src/main.rs`). The service keeps two tables in SQLite: `links`,
keyed by a unique slug, and `link_click_tracking`, an append-only log of
redirects. A management API creates, lists and deletes links and lists the
clicks of a slug. A second server redirects `/{slug}` to the link's target and
records a click. An hourly task deletes expired links and click rows.

The model has these parts:

- `Service.LinkService` is a class holding the two tables. `links` is a
  `map<Slug, LinkRow>` and `clicks` is a `seq<ClickRow>`. Each handler is one
  method that runs alone on that state: `CreateLink`, `GetLinks`,
  `GetLinkClicks`, `DeleteLink`, `ForwardLink` and `Sweep` (one cycle of the
  sweeper). `GenerateSlug` is the retry loop of `create_link`.
- The state-changing methods are tied to pure functions of the old state:
  `FirstFree`, `ChosenSlug`, `SweptLinks`, `UnexpiredClicks`, `ClicksFor` and
  `CountClicks`. Lemmas about those functions state what the source promises.
- Pure string logic is in separate modules:
  - `Urls`: the shortened URL, `trim_end_matches("/")` plus `/` plus the slug.
  - `Headers`: `get_header` and the `"unknown"` fallback for the client IP.
  - `Cors`: the `allowed_origin_fn` closure, built on `split`, `split_terminator`
    and an exact-match lookup.
- `Slugs` holds the 36-character alphabet, the candidate a draw spells, and the
  first-free-candidate rule.

Inputs that stand in for I/O:

- `draws: seq<Draw>` replaces `rand::thread_rng`. Each draw is the four indices
  `gen_range(0..36)` returns for one candidate.
- `now: Timestamp` replaces `Local::now()`. The same value is used for the
  database defaults (`created_at`, `updated_at`, the click `datetime`), which
  are set by a migration that is not part of this model.
- The remote address and the request headers of a redirect are parameters.
- `forwardUrl` (from `FORWARD_URL`) is a constant of the service object.
- The configured origin list `CORS_ALLOWED_ORIGINS` is an argument of the pure
  predicate.

The model follows the code as written in these places:

- `DeleteLink` answers 204 whether or not the slug existed. It never answers
  404.
- `GetLinkClicks` answers 200 with the log's rows for that slug whether or not
  a link exists: an empty list for a slug never used, and the leftover rows for
  a deleted link. It never answers 404.
- Deleting a link leaves its click rows in the log. A link created later under
  the same slug is listed with those old clicks counted, because the count
  groups click rows by slug only.
- `target_url` is stored without validation. A hit on a link whose target URL
  holds a control character logs the click and then answers 500, because the
  `Location` header value is rejected.

The model departs from the code in these places:

- The slug generator has no retry bound in the code. The model bounds it by the
  number of draws supplied and returns `GenerationExhausted`.
- The sweeper compares `expires_at` (an integer epoch, written at
  `main.rs:98` and `main.rs:106`) with `date('now')`, which is TEXT such as
  `'2026-10-14'`. SQLite orders every INTEGER before every TEXT value, and an
  epoch stored as text (`'17…'`) also sorts before `'2026-…'`. Read as
  written, each sweep cycle (the first runs at start-up, `main.rs:275`)
  deletes every link and click row that has any expiry. The model compares
  with an integer `now`, the evident intent, and says so in a comment on
  `Links.Expired`. This reading of SQLite's comparison rules has not been
  checked against a database.

## Model

| member | source | states |
|---|---|---|
| `Urls.TrimTrailingSlashes` | backend/src/main.rs:37 | the result is a prefix of the input, does not end in `/`, and everything cut off is `/` |
| `Urls.TrimUnique` | backend/src/main.rs:37 | those three properties determine the trimmed string, so any string with them is the trim |
| `Urls.TrimIdempotent` | backend/src/main.rs:37 | trimming a trimmed string changes nothing |
| `Urls.ShortenedUrlIgnoresTrailingSlashes` | backend/src/main.rs:37 | adding any number of trailing slashes to the forward URL gives the same shortened URL |
| `Urls.ShortenedUrlSameBase` | backend/src/main.rs:112 | two forward URLs give the same shortened URL for a slug iff they trim to the same base |
| `Urls.ShortenedUrlInjective` | backend/src/main.rs:112 | the slug can be read back from the shortened URL, so two slugs never get the same shortened URL under one forward URL |
| `Headers.FirstValue` | backend/src/main.rs:139 | `None` iff no header has that name, ignoring ASCII case; otherwise the value of the first header that has it |
| `Headers.GetHeader` | backend/src/main.rs:137-143 | gives the first value of the named header when that value is visible ASCII, and `""` when the header is missing or the value does not convert |
| `Headers.FirstValueIgnoresCase` | backend/src/main.rs:139 | looking up two names that differ only in ASCII case finds the same value |
| `Headers.GetHeaderIgnoresCase` | backend/src/main.rs:166 | looking up two names that differ only in ASCII case gives the same `get_header` result |
| `Headers.FirstValueIgnoresHeaderCase` | backend/src/main.rs:139 | two header lists that differ only in the ASCII case of their names give the same first value |
| `Headers.GetHeaderIgnoresHeaderCase` | backend/src/main.rs:166 | `get_header(&req, "User-Agent")` gives the same answer however the client spells the header name's case |
| `Cors.Split` | backend/src/main.rs:237 | splitting on `,` always yields at least one piece, and no piece contains the separator |
| `Cors.JoinSplit` | backend/src/main.rs:237 | joining the pieces with the separator rebuilds the original string |
| `Cors.SplitJoin` | backend/src/main.rs:237 | splitting a join of separator-free pieces gives back exactly those pieces |
| `Cors.WildcardAllowsAll` | backend/src/main.rs:233-235 | the configured value `"*"` accepts every origin |
| `Cors.OriginAllowedIff` | backend/src/main.rs:236-240 | for any other value, an origin is accepted iff it is non-empty and equals one comma-separated piece; `split_terminator` and the empty-entry filter drop nothing else |
| `Cors.OriginAllowedForEntries` | backend/src/main.rs:236-240 | for a list of comma-free entries joined by commas, the accepted origins are exactly the non-empty entries |
| `Slugs.Candidate` | backend/src/main.rs:75-80 | every candidate has 4 characters, all from `CHARSET` |
| `Slugs.EverySlugIsDrawable` | backend/src/main.rs:72-80 | every 4-character string over `CHARSET` is the candidate of some draw |
| `Slugs.FirstFree` | backend/src/main.rs:74-93 | a returned slug is well-formed and not taken, and it is the candidate of the first draw whose candidate is free; `None` iff every drawn candidate is taken |
| `Links.ClicksFor` | backend/src/main.rs:55 | a row is in the result iff it is in the log with that slug |
| `Links.ClicksForExact` | backend/src/main.rs:55 | each row appears in the result exactly as often as in the log if its slug matches, and never otherwise |
| `Links.ClicksForAppend` | backend/src/main.rs:163-170 | logging a row extends the slug's click list by that row at the end if the slugs match, and leaves the list alone otherwise |
| `Links.CountIsClicksForLength` | backend/src/main.rs:25-27 | the LEFT JOIN count of a slug equals the number of its click rows, so a link without clicks counts 0 |
| `Links.CountClicksAppend` | backend/src/main.rs:163-170 | logging one row raises its own slug's count by exactly one and no other slug's count |
| `Links.SweptLinks` | backend/src/main.rs:276 | a slug survives iff it was stored and its expiry is absent or not before `now`; survivors are unchanged |
| `Links.UnexpiredClicks` | backend/src/main.rs:280 | a click row survives iff it was logged and its expiry is absent or not before `now` |
| `Links.UnexpiredClicksExact` | backend/src/main.rs:280 | expired rows lose every copy and other rows keep every copy |
| `Links.SweepsCompose` | backend/src/main.rs:274-286 | a sweep followed by a later sweep equals the later sweep alone, so a sweep is idempotent |
| `Service.ChosenSlugProperties` | backend/src/main.rs:70-94 | a non-empty requested slug is used verbatim; a generated slug is well-formed and free; generation fails only when the request slug is empty and every draw collides |
| `Service.LinkService.GenerateSlug` | backend/src/main.rs:74-93 | the loop returns `FirstFree` of the current keys and the draws |
| `Service.LinkService.CreateLink` | backend/src/main.rs:66-122 | inserts the chosen slug with `expires_at = now + n` (or none) and answers 201 with `clicks = 0` and the shortened URL; a taken slug gives 422 and changes nothing; existing rows and the log never change |
| `Service.LinkService.GetLinks` | backend/src/main.rs:22-50 | lists every stored link exactly once, with its stored fields copied, its click count and its shortened URL |
| `Service.LinkService.GetLinkClicks` | backend/src/main.rs:52-64 | returns exactly the click rows of that slug, each as often as it is logged |
| `Service.LinkService.DeleteLink` | backend/src/main.rs:124-135 | removes only the row under that slug, leaves the log alone, and answers 204 even when the slug is absent |
| `Service.LinkService.ForwardLink` | backend/src/main.rs:145-176 | a miss answers 404 "Link not found" and logs nothing; a hit appends one row (slug, IP or "unknown", User-Agent or "", the link's expiry), then answers 307 with `Location` and `Referrer-Policy: no-referrer`, or 500 when the target URL is not a valid header value; `links` is unchanged and only that slug's count rises, by one |
| `Service.HitResponse` | backend/src/main.rs:172-175 | the hit answers 307 with the redirect headers iff the target URL is a valid header value, and 500 otherwise |
| `Service.LinkService.Sweep` | backend/src/main.rs:276-282 | one cycle changes the two tables to `SweptLinks` and `UnexpiredClicks` of the old tables |
| `Service.ExpiringLinkLifecycle` | backend/src/main.rs:97-100 | a link created without a slug and with a 3600 s expiry gets a generated slug, redirects once, counts one click, and is gone after a sweep later than its expiry |

## Left out

- HTTP plumbing is not modelled: actix routing, the two `HttpServer`s, `try_join!`, static files, logging and reading environment variables. `FORWARD_URL` and `CORS_ALLOWED_ORIGINS` are parameters.
- The sqlx pool, `setup_database` and the migrations are not modelled; SQL statements are replaced by operations on the map and the sequence. The unique key on `links.slug` is the map's key.
- Storage failures are left out because the in-memory tables cannot fail. This covers the `Err` branch of the existence query, which answers 422, the `Err` branches that answer 500, and the panics of `.unwrap()` on the click insert and `.expect` in the sweeper.
- The redirect lookup answers 404 on any error of its query, not only on a missing row. The model has no query errors, so only a missing slug gives 404.
- The body of the 500 answer to a hit with an invalid target URL (the header error's message) is not modelled.
- Concurrency is left out; the model runs operations one at a time. This covers the read-then-insert race in `forward_link`, which has no transaction, and the interleaving of the two servers and the sweeper.
- The timer loop and the hourly `sleep` are left out; `Sweep` is one cycle.
- SQLite's ordering of mixed storage classes in `expires_at < date('now')` is left out; `now` is an integer.
- The order of `GET /links/{slug}/clicks` results is left unspecified: the query has no `ORDER BY`. `GetLinkClicks` returns the rows in log order, one of the orders SQLite may give.
- The order of `GET /links` results is left unspecified. SQLite's `GROUP BY` order is an engine detail.
- `COUNT(t2.datetime)` skips NULL datetimes. The model's `datetime` is always set, matching the database default on insert.
- Integers are unbounded. `Local::now().timestamp() + val` is an `i64` addition in the source that could overflow for absurd durations; the model does not wrap it.
- `expires_in_secs` is matched as `Ok(val)` in the source, and its request type is not part of this model. The model takes `Option<int>`.
- `origin.to_str().unwrap()` panics on an origin header that is not visible ASCII. The model treats origins as strings and leaves that panic out.
- `realip_remote_addr()` reads forwarding headers and the peer address in actix. The model takes its result as an input `Option<string>`.
- Slug generation is bounded by the draws supplied. The source loops until it finds a free slug; the model adds a `GenerationExhausted` answer when the draws run out.
- `backend/src/models/links.rs` is not modelled: it only declares structs and is out of step with `main.rs`. The record fields follow their use in `main.rs`.
- The UI under `ui/` is not modelled. It is React code and `fetch` wrappers.
