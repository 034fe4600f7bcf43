# pictures-site backend, modelled in Dafny

The pictures-site backend is a canister that stores images in memory and serves them in two ways:

- through a data API: `upload_image`, `get_image` and `list_images`;
- through an HTTP GET emulation, `http_request`, which maps `/image/<id>[.ext]` to the stored bytes. It uses the id as the ETag and answers a matching `If-None-Match` header with 304.

The model has four modules:

- `Types` (`types.dfy`): the records `ImageData` and `ImageInfo`, the request and response values, and the map lookup.
- `Decimal` (`decimal.dfy`): the decimal text of a `u64`, as `format!("{}", id)` writes it and as `str::parse::<u64>` reads it. Parsing accepts an optional `+`. It rejects empty text, a lone `+`, a `-`, any other character and overflow.
- `Router` (`router.dfy`): `http_request` as a pure function, `Respond(req, images)`. It is built from the path helpers and the ETag / If-None-Match test, and the module proves the routing and caching properties about it.
- `Backend` (`backend.dfy`): a class `Store`. It owns the counter `nextId` and the map `images`, which the source keeps in two thread-local cells. `UploadImage` changes both fields. `GetImage` is a function that only reads them. `ListImages` and `HttpRequest` are methods without a `modifies` clause, so they cannot change the counter or the map. `HttpRequest` hands the current map to `Serve`. `Serve` scans the headers with the source's loop and early return, and is proved equal to `Router.Respond`.

Two behaviours of the code are worth noting:

- `trim_start_matches('/')` removes every leading slash, not just one. So `//image/7` is served (see `PlusSignAndSlashesAccepted`).
- The header scan returns 304 when any header matches. A non-matching `If-None-Match` header earlier in the list does not stop the scan (see `HasMatchAppend`).

## Model

| member | source | states |
|---|---|---|
| `Backend.Store.constructor` | src/pictures-site-backend/src/lib.rs:47-50 | the store starts with no images and the counter at 1 |
| `Backend.Store.UploadImage` | src/pictures-site-backend/src/lib.rs:52-73 | the id returned is the old counter value; the counter is then exactly one higher; the new id is above every stored id, so nothing is overwritten; the map gains exactly the record (id, name, content type, data), and `GetImage` on every other id is unchanged; the store invariant (stored ids lie in 1 .. nextId-1 and are their records' ids) is kept |
| `Backend.Store.GetImage` | src/pictures-site-backend/src/lib.rs:75-78 | returns a record exactly when the id is stored, and then the stored record, whose id is the one asked for |
| `Backend.Store.ListImages` | src/pictures-site-backend/src/lib.rs:80-93 | returns one summary (key, name, content type; no data) per map entry: as many summaries as entries, every entry listed, ids distinct, in any order |
| `Backend.ListOneMore` | src/pictures-site-backend/src/lib.rs:83-92 | adding the summary of one not-yet-listed stored id to a partial listing gives a partial listing with that id no longer outstanding: every listed summary matches its map entry, no id appears twice, and the count of listed plus outstanding ids stays equal to the map's size |
| `Backend.ListingsAgree` | src/pictures-site-backend/src/lib.rs:80-93 | any two listings of the same map have the same length and the same summaries, so repeated listings differ at most in order |
| `Backend.Serve` | src/pictures-site-backend/src/lib.rs:103-163 | the URL resolution, the map lookup and the header loop with its early return give exactly `Router.Respond` of the request and the map |
| `Backend.Store.HttpRequest` | src/pictures-site-backend/src/lib.rs:103-163 | answers with `Router.Respond` of the request and the current map, and changes neither field |
| `Backend.UploadThenFetch` | src/pictures-site-backend/src/lib.rs:52-163 | after an upload, a GET of `/image/<id>` plus any extension and any number of leading slashes gives 200 with the uploaded content type and bytes and ETag `"<id>"`, or 304 when a header revalidates that ETag |
| `Router.TrimLeadingSlashes` | src/pictures-site-backend/src/lib.rs:105 | the result is a suffix of the URL, everything removed is `/`, and the result does not start with `/` |
| `Router.StripPrefix` | src/pictures-site-backend/src/lib.rs:108 | succeeds exactly when the path starts with `image/`, and then the path is `image/` followed by the result |
| `Router.BeforeFirstDot` | src/pictures-site-backend/src/lib.rs:115 | the result is a prefix without any `.`, followed in the input by a `.` or by nothing |
| `Router.LowerMatchIgnoresCase` | src/pictures-site-backend/src/lib.rs:132 | for any target text without capitals, a name lower-cases to it exactly when the two have the same length and each character of the name is the target's character in either case |
| `Router.TrimAfterSlashes` | src/pictures-site-backend/src/lib.rs:105 | any number of leading slashes before a path that does not start with `/` is removed completely |
| `Router.BeforeFirstDotOfPlainText` | src/pictures-site-backend/src/lib.rs:115 | the text before the first dot of `d + ext` is `d` when `d` has no dot and `ext` is empty or starts with a dot |
| `Router.ResolveUnderImagePrefix` | src/pictures-site-backend/src/lib.rs:105-116 | under `image/`, after any number of slashes, the id is the parse of the text before the first dot |
| `Router.ResolveIdText` | src/pictures-site-backend/src/lib.rs:105-116 | a URL made of slashes, `image/`, a dot-free id text and an extension resolves to the parse of that id text |
| `Router.IssuedIdUrlResolves` | src/pictures-site-backend/src/lib.rs:105-120 | the URL built from any u64 id, with any number of leading slashes and any extension, resolves to that id |
| `Router.OverflowingIdIsNotFound` | src/pictures-site-backend/src/lib.rs:116-120 | the all-digit id 2^64 does not resolve |
| `Router.UnroutedPathIsNotFound` | src/pictures-site-backend/src/lib.rs:105-112 | a path not under `image/` after trimming gives the 404 response |
| `Router.UnroutedAt` | src/pictures-site-backend/src/lib.rs:105-112 | a URL of slashes followed by a path that is not under `image/` does not resolve |
| `Router.UnroutedExamples` | src/pictures-site-backend/src/lib.rs:105-112 | `""`, `/` and `/not-image/5` do not resolve |
| `Router.EmptyIdExamples` | src/pictures-site-backend/src/lib.rs:114-120 | `/image/` and `/image/.png` do not resolve |
| `Router.TrailingLettersRejected` | src/pictures-site-backend/src/lib.rs:114-120 | `/image/12abc` does not resolve |
| `Router.QueryStringNotStripped` | src/pictures-site-backend/src/lib.rs:114-120 | `/image/5?x=1` does not resolve: the query string is not stripped |
| `Router.MinusSignRejected` | src/pictures-site-backend/src/lib.rs:116-120 | `/image/-5` does not resolve |
| `Router.ExtensionIgnored` | src/pictures-site-backend/src/lib.rs:114-116 | `/image/5.tar.gz` resolves to 5 |
| `Router.PlusSignAndSlashesAccepted` | src/pictures-site-backend/src/lib.rs:105-116 | `//image/+7.jpg` resolves to 7 |
| `Router.LeadingZerosAccepted` | src/pictures-site-backend/src/lib.rs:114-116 | `/image/007` resolves to 7 |
| `Router.IfNoneMatchIgnoresCase` | src/pictures-site-backend/src/lib.rs:132 | a header name matches `if-none-match` exactly when it has 13 characters, each equal to the matching character of `if-none-match` in either case |
| `Router.BrowserRevalidationMatches` | src/pictures-site-backend/src/lib.rs:131-132 | the header `If-None-Match: "<id>"` revalidates the ETag of `id` |
| `Router.HasMatchAppend` | src/pictures-site-backend/src/lib.rs:131-146 | a header list matches exactly when one of its two parts matches, so non-matching headers are skipped wherever they stand |
| `Router.HeaderOrderIrrelevant` | src/pictures-site-backend/src/lib.rs:131-146 | any reordering of the request headers gives the same response |
| `Router.MethodAndBodyIgnored` | src/pictures-site-backend/src/lib.rs:104-163 | the request method and body never change the response |
| `Router.ETagInjective` | src/pictures-site-backend/src/lib.rs:128 | distinct ids have distinct ETags |
| `Router.NotFoundCases` | src/pictures-site-backend/src/lib.rs:95-126 | the status is 404 exactly when the URL does not resolve or its id is not stored, and then the response is `Content-Type: text/plain` with body `Not Found` |
| `Router.NotModifiedCases` | src/pictures-site-backend/src/lib.rs:128-146 | the status is 304 exactly when the id is stored and some header revalidates its ETag; the response then has headers ETag and `Cache-Control: public, max-age=31536000, immutable` in that order, and an empty body |
| `Router.OkCases` | src/pictures-site-backend/src/lib.rs:148-162 | the status is 200 exactly when the id is stored and no header revalidates; the body is then the stored data, and the headers are Content-Type (the record's), Cache-Control and ETag, in that order |
| `Router.FetchByIdUrl` | src/pictures-site-backend/src/lib.rs:104-163 | a request for the URL of id `id` gives 404 when the id is absent, else 304 or 200 with that record, depending on the headers |
| `Decimal.Format` | src/pictures-site-backend/src/lib.rs:128 | the decimal text of `n` is non-empty, all digits, denotes `n`, and has no leading zero unless `n` is 0 |
| `Decimal.ParseFormat` | src/pictures-site-backend/src/lib.rs:116 | parsing the decimal text of a u64, with or without `+`, gives the number back |
| `Decimal.FormatInjective` | src/pictures-site-backend/src/lib.rs:128 | distinct numbers have distinct decimal texts |
| `Decimal.ParseSuccessIsCanonical` | src/pictures-site-backend/src/lib.rs:116 | a successful parse read an optional `+`, then leading zeros, then the canonical text of the result, and nothing else |
| `Decimal.DigitsAreZerosThenFormat` | src/pictures-site-backend/src/lib.rs:116 | every non-empty digit string is zeros followed by the canonical text of its value |
| `Decimal.ValueIgnoresLeadingZeros` | src/pictures-site-backend/src/lib.rs:116 | leading zeros do not change the value of a digit string |
| `Decimal.ValueOfZeros` | src/pictures-site-backend/src/lib.rs:116 | a string of zeros has value 0 |
| `Decimal.ValueZeroIsZeros` | src/pictures-site-backend/src/lib.rs:116 | a digit string of value 0 is all zeros |
| `Decimal.ParseRejectsOverflow` | src/pictures-site-backend/src/lib.rs:116 | numbers above 2^64-1 do not parse, even as well-formed digit text |
| `Decimal.ParseRejectsNonDigit` | src/pictures-site-backend/src/lib.rs:116 | a non-digit after the optional `+` makes the parse fail |
| `Decimal.ParseAcceptsExamples` | src/pictures-site-backend/src/lib.rs:116 | `5`, `+7` and `007` parse to 5, 7 and 7 |
| `Decimal.ParseRejectsExamples` | src/pictures-site-backend/src/lib.rs:116 | empty text, `+`, `-5`, `12abc` and `5?x=1` do not parse |

## Left out

- The React frontend (`src/pictures-site-frontend/src/App.tsx`) is not part of this model. It is UI code with asynchronous canister calls.
- Response certification is left out: `init` / `set_certified_data`, `data_certificate()` and `add_skip_certification_header`. These are calls into the host platform, and the header they append to each response is not modelled. Every response path calls `data_certificate().unwrap()` (lib.rs:110, 118, 124, 143 and 161). When no certificate is available, as in a replicated call, that unwrap traps and no response is sent. The model always answers.
- Candid and serde marshalling, the `#[update]` / `#[query]` entry-point attributes, and the `thread_local!` / `RefCell` cells are left out. The two cells become the two fields of `Store`.
- Backend.Store.UploadImage: requires the counter to be below 2^64-1. The source's `*next_id += 1` at `u64::MAX` would panic in a debug build and wrap to 0 in a release build. Neither happens before 2^64-1 uploads, and neither is modelled.
- Router.ToLowerAscii: lower-cases ASCII letters only, where the source uses Unicode `to_lowercase`. Outside ASCII, only KELVIN SIGN lower-cases to ASCII text alone (`k`). `if-none-match` contains no `k`, so the match test gives the same answer either way. The Unicode tables themselves are not modelled.
- The iteration order of the `HashMap` in `list_images` is not modelled. `ListImages` picks keys in an unspecified order, and its contract is stated up to order.
- Mutual exclusion between entry points is not modelled. The platform runs one message at a time, and each method of `Store` runs without interruption.
