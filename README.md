# URL shortener store: a Dafny model

This project models the core of a small URL shortener web API
(`src/Shortener.Api/Program.cs`). The API keeps an in-memory dictionary `urls`
from slugs to target URLs. Slugs compare case-insensitively. Two handlers use it:

- `POST /urls` (Create) checks and normalizes the original URL. It then either
  validates a caller-supplied custom slug, or draws random six-character slugs
  until one is free. Finally it inserts the mapping and answers with the slug,
  the short URL `/slug` and the target. The target stored is the normalized
  URL, not the request's text, and a custom slug is trimmed before it is
  checked.
- `GET /{slug}` (Resolve) looks the slug up, ignoring case. It redirects to the
  target or answers not found.

Modules, one per concern:

- `Wrappers` (`wrappers.dfy`): `Option`, which stands for the source's nullable strings.
- `Text` (`text.dfy`): `Char.IsWhiteSpace`, `Trim`, `IsNullOrWhiteSpace`, and ordinal
  case-insensitive comparison restricted to ASCII letters (`Fold`, `EqualsIgnoreCase`).
- `Models` (`models.dfy`): the `CreateUrlRequest` and `CreateUrlResponse` records.
- `Urls` (`urls.dfy`): `NormalizeUrl`, which models `Program.cs` lines 44-49.
- `Slugs` (`slugs.dfy`): the 62-letter alphabet, `GenerateSlug` (an imperative
  loop, proved against `SlugOf`), and the custom-slug rule `^[a-zA-Z0-9_-]+$`
  with its 32-character limit.
- `Store` (`store.dfy`): the dictionary (`Program.cs` line 41) as a map from
  folded slug to `Entry(slug, target)`, plus the class `UrlStore`.
  `Contains` and `Lookup` are `ContainsKey` and `TryGetValue` (lines 101 and
  130). The class's `Create` method changes `urls` in place. It is proved
  equal to the pure function `CreateIn`, which models the create handler
  (lines 86-113), and the properties of Create are lemmas about `CreateIn`.
  `Resolve` models the resolve handler (lines 128-134). `Replay` runs a
  sequence of creates, so that uniqueness can be stated across calls.

Three outside inputs become parameters:

- `Uri.TryCreate(target, UriKind.Absolute, ...)` is the parameter
  `isAbsoluteUri: string -> bool`.
- The bytes from `RandomNumberGenerator.GetBytes(6)` are parameters. Each
  attempt of the retry loop gets one six-byte block from `draws`.
- The retry loop ends when it finds a free slug. If every supplied block
  collides, the model answers `OutOfDraws` and leaves the store unchanged.
  This answer stands for a run in which the source would still be drawing.

## Model

| member | source | states |
|---|---|---|
| `Text.TrimStartShape` | src/Shortener.Api/Program.cs:48 | the leading-trim result is a suffix of the input, everything dropped is white space, and it does not start with white space |
| `Text.TrimEndShape` | src/Shortener.Api/Program.cs:48 | the trailing-trim result is a prefix of the input, everything dropped is white space, and it does not end with white space |
| `Text.TrimShape` | src/Shortener.Api/Program.cs:98 | `Trim` leaves no white space at either end, and its result is empty exactly when the input is all white space (so a non-blank custom slug stays non-empty) |
| `Text.TrimmedIsFixed` | src/Shortener.Api/Program.cs:48 | trimming a string with no white space at its ends returns it unchanged |
| `Text.TrimIdempotent` | src/Shortener.Api/Program.cs:48 | trimming twice is the same as trimming once |
| `Text.TrimKeepsSolidPrefix` | src/Shortener.Api/Program.cs:46-48 | a leading run of non-white characters survives trimming unchanged |
| `Text.FoldMatchesIgnoreCase` | src/Shortener.Api/Program.cs:41 | two slugs have the same folded key exactly when they are equal ignoring ASCII case, so a map keyed by the fold is the `OrdinalIgnoreCase` dictionary |
| `Urls.NormalizeUrlShape` | src/Shortener.Api/Program.cs:44-49 | the normalized URL always starts with `http://` or `https://` (any case) and has no white space at either end; an input that already has a scheme is only trimmed; any other input gets `https://` in front, keeps its leading white space and loses its trailing white space |
| `Urls.NormalizeIdempotent` | src/Shortener.Api/Program.cs:44-49 | normalizing a normalized URL changes nothing |
| `Urls.SchemeIsSolid` | src/Shortener.Api/Program.cs:46-48 | a URL that starts with a scheme has no white space in that prefix and still starts with it after trimming |
| `Urls.TrimEndAfterSolidEnd` | src/Shortener.Api/Program.cs:47-48 | trimming the end of `https://` + url only removes trailing white space of url |
| `Slugs.AlphabetIsAlphanumeric` | src/Shortener.Api/Program.cs:52 | the alphabet has 62 characters, each one in `[a-zA-Z0-9]` |
| `Slugs.SlugOf` | src/Shortener.Api/Program.cs:50-56 | the slug has one character per random byte, and character `i` is `chars[bytes[i] % 62]` |
| `Slugs.GenerateSlug` | src/Shortener.Api/Program.cs:50-57 | the append loop returns one character per byte, character `i` is `chars[bytes[i] % 62]`, every character is alphanumeric, and the result equals `SlugOf` |
| `Slugs.GeneratedSlugIsValid` | src/Shortener.Api/Program.cs:52-55 | generated slugs are alphanumeric, so one of 1 to 32 characters (the handler uses 6) would also pass the custom-slug rule of line 99 |
| `Store.LookupIgnoresCase` | src/Shortener.Api/Program.cs:41 | `ContainsKey` holds exactly when some stored slug equals the query ignoring case; `TryGetValue` then succeeds and returns that entry's target |
| `Store.FirstFreshDraw` | src/Shortener.Api/Program.cs:107 | the do-while loop stops at the first draw whose slug is not taken, and every earlier draw's slug was taken; with no result, every draw was taken |
| `Store.UrlStore.DrawFreshSlug` | src/Shortener.Api/Program.cs:107 | the imperative retry loop yields the slug of the first free draw, and whenever it yields a slug that slug is not in the store |
| `Store.CreateOnlyAdds` | src/Shortener.Api/Program.cs:101-111 | Create never overwrites or removes an entry; every rejection leaves the store as it was; a success adds exactly one key that was not present, maps it to the normalized target, leaves all other entries alone, and answers `ShortUrl == "/" + slug`, `TargetUrl == target` |
| `Store.CreateKeepsEntriesValid` | src/Shortener.Api/Program.cs:91-108 | every stored slug passes the custom-slug rule, and every stored target starts with a scheme and is trimmed; Create keeps both facts |
| `Store.OriginalUrlRule` | src/Shortener.Api/Program.cs:88-93 | a null or blank original URL is rejected as missing; a URL that does not parse as absolute after normalization is rejected as invalid; each holds exactly in its case |
| `Store.CustomSlugRule` | src/Shortener.Api/Program.cs:96-103 | with a non-blank custom slug, the trimmed slug is non-empty and is rejected exactly when it is not 1 to 32 characters from `[a-zA-Z0-9_-]`; it conflicts exactly when valid and already present ignoring case; otherwise it is the slug created |
| `Store.ConflictKeepsExistingTarget` | src/Shortener.Api/Program.cs:101-102 | on a conflict the store is unchanged and the slug keeps its original target |
| `Store.BlankCustomSlugIsAbsent` | src/Shortener.Api/Program.cs:96 | a null or all-white-space custom slug is treated like no custom slug at all |
| `Store.GeneratedSlugIsFresh` | src/Shortener.Api/Program.cs:105-109 | without a custom slug, Create succeeds exactly when some draw gives a free slug; the slug created is the first free draw, and every earlier draw collided |
| `Store.CreateThenResolve` | src/Shortener.Api/Program.cs:101-111 | after a successful Create of slug `s` with target `t`, looking up any casing of `s` in the new store gives `t` |
| `Store.ReplayCreatesDistinctSlugs` | src/Shortener.Api/Program.cs:101-109 | over any run of creates, entries present at the start are never changed; each created slug was new at the start and still resolves to its target at the end; no two created slugs are equal ignoring case |
| `Store.UrlStore.constructor` | src/Shortener.Api/Program.cs:41 | the store starts empty and satisfies its invariant |
| `Store.UrlStore.Resolve` | src/Shortener.Api/Program.cs:128-134 | redirects exactly when some stored slug equals the query ignoring case, with the target of that entry; otherwise answers not found; reads the store and changes nothing |
| `Store.UrlStore.Create` | src/Shortener.Api/Program.cs:86-113 | the handler keeps the store invariant; its answer and new store are those of `CreateIn`; it never changes an existing entry; it changes nothing unless it succeeds; and after a success, `Resolve` of any casing of the new slug redirects to its target |

## Left out

- HTTP hosting, routing, status codes and the `Location` header `/urls/{slug}`,
  and Swagger/Scalar/OpenAPI setup (`Program.cs` lines 10-37, 59-76, 114-120,
  135-142). This is framework plumbing. Rejections are the values
  `BadRequest(reason)`, `Conflict` and `NotFound`.
- The Spanish text of each `ErrorResponse` message. The model keeps only which
  rejection happened (`BadRequestReason`).
- `src/Shortener.Api/Swagger/SchemaExamples.cs` holds documentation examples only.
- `Uri.TryCreate` is a foreign URI parser. It is the parameter `isAbsoluteUri`,
  so no property depends on what it accepts.
- `RandomNumberGenerator.GetBytes` is an outside source of randomness. Its
  bytes are parameters. The distribution is not modelled, including the slight
  bias of `b % 62`.
- `GenerateSlug`'s `length` parameter is not a separate input. The length is
  the number of bytes supplied. The handler always uses the default of 6,
  which the requirement `DrawsOfDefaultLength` on `UrlStore.Create` states.
- Store.UrlStore.Create: does not model the retry loop's lack of a bound. The
  source draws until it finds a free slug and may in principle never stop. The
  model gets a finite list of draws. When all of them collide, it answers
  `OutOfDraws` with the store unchanged. Termination is not claimed.
- Concurrency: the source's `Dictionary` has no lock, so two concurrent
  requests can both pass `ContainsKey` and then write the same key. The model
  is sequential. Its uniqueness result (`ReplayCreatesDistinctSlugs`) holds
  for one request at a time only.
- Case-insensitive comparison uses ASCII case folding. Stored slugs are ASCII
  by construction. .NET's `OrdinalIgnoreCase` also equates non-ASCII letters
  that differ only in case (`é` and `É`), and the `IgnoreCase` option of the
  scheme pattern `^https?://` may let a non-ASCII character stand for a scheme
  letter (U+017F, long s, for `s`). Neither is modelled, for queries or for
  URL schemes.
- Strings are sequences of Unicode scalar values, not UTF-16 code units. The
  32-character limit therefore counts a character outside the Basic
  Multilingual Plane once, where .NET counts it twice. Such a character fails
  the `[a-zA-Z0-9_-]` rule anyway, so the verdict is the same.
- The regular expressions are explicit character predicates. `$` in
  `^[a-zA-Z0-9_-]+$` also matches before a final newline. The slug is trimmed
  first, so this makes no difference.
