# Telegram channel gate: a Dafny model

This project models the access-gating core of a small Next.js application that
admits visitors of a Telegram Mini App to one of two destinations depending on
whether they belong to a Telegram channel. Three pure decision layers are
modelled, and each is proved about:

1. **`validateInitData`** (`src/lib/telegram.ts`). It checks the signature Telegram
   puts on the Mini App's `initData` query string. The string is parsed as
   `application/x-www-form-urlencoded` (WHATWG URL Standard, section 5.1). Every
   `hash` entry is removed. The rest is sorted by name and written as
   `name=value` lines joined by `\n`. The line string is signed with HMAC-SHA256
   (RFC 2104) under a key derived from the bot token. The supplied hash must
   equal the lowercase hex of that MAC. After that, the `user` JSON is parsed.
2. **`getChatMember`** (`src/lib/telegram.ts`). It classifies the Bot API reply
   against the statuses `member`, `administrator`, `creator` and `restricted`. It
   fails closed.
3. **`POST /api/check`** (`src/app/api/check/route.ts`) and **`/go`**
   (`src/app/go/page.tsx`). The first is the ordered chain of input,
   configuration and verification checks that yields a response. The second
   turns `member=true|false` into one of two configured URLs, with a fallback URL
   built by `encodeURIComponent`.

Modules follow the program's structure. `Base`, `JsonValue`, `Hex` and
`TextOrder` hold the shared vocabulary. `FormUrlEncoded` is the parser and
`URLSearchParams`. `Canonical` builds the data-check string. `InitData` is the
verifier and `Membership` is the status classifier. `CheckRoute` is the
endpoint, `GoPage` is the redirect page, and `AccessFlow` covers the hop between
the two.

Every string is modelled by its UTF-8 bytes (`Text = seq<byte>`). The bytes are
what HMAC-SHA256 signs, and the parser's separators are ASCII. Lifted into
inputs:

- HMAC-SHA256 is the parameter `mac(key, message)`, which returns 32 bytes.
- `JSON.parse` is the parameter `parseJson`, with `None` for a throw.
- The Bot API lookup is the parameter `oracle`.
- Environment variables are `Option<Text>` inputs.
- The request body is `Option<Json>`, with `None` when `request.json()` throws.

Details of the code that the model follows:

- For a repeated name, `params.get` returns the FIRST value and
  `params.delete` removes EVERY entry.
- The parsed `user` is not checked for an `id` or a `first_name`. Any JSON value
  is accepted, and the endpoint rejects only a falsy one.
- The hash is compared with ordinary string equality, not in constant time.
- A payload without `user` passes the verifier. The endpoint then answers
  400.
- `/go` trusts its `member` query: anyone who opens `/go?member=true` reaches
  the member URL without the endpoint being called
  (`AccessFlow.TypedQueryReachesMember`). The guarantee that a member
  destination needs a confirmed membership holds only along the start page's
  path.

## Model

| member | source | states |
|---|---|---|
| `Hex.Lower` | src/lib/telegram.ts:46 | `digest('hex')` gives exactly two lowercase hex digits per digest byte |
| `Hex.DecodeLower` | src/lib/telegram.ts:46 | reading the hex string back gives the digest, so the hex form loses nothing |
| `Hex.LowerInjective` | src/lib/telegram.ts:46-48 | two different digests never compare equal as hex strings |
| `TextOrder.LeAntisymmetric` | src/lib/telegram.ts:37 | names that are each ordered before the other are equal |
| `TextOrder.LeTransitive` | src/lib/telegram.ts:37 | the name order used by the sort is transitive |
| `TextOrder.LeTotal` | src/lib/telegram.ts:37 | any two names are comparable |
| `FormUrlEncoded.Split` | src/lib/telegram.ts:26 | splitting on `&` gives pieces without `&` that join back to the input |
| `FormUrlEncoded.SplitJoin` | src/lib/telegram.ts:26 | splitting undoes joining when no piece holds the separator |
| `FormUrlEncoded.IndexOf` | src/lib/telegram.ts:26 | the name of a pair ends at the FIRST `=`: none occurs before the index found |
| `FormUrlEncoded.ReplacePlus` | src/lib/telegram.ts:26 | every `+` becomes a space and nothing else changes |
| `FormUrlEncoded.EncodeUriComponent` | src/app/go/page.tsx:34 | output bytes are unreserved, `%` or hex digits, between one and three per input byte |
| `FormUrlEncoded.DecodeEncode` | src/app/go/page.tsx:34 | percent-decoding inverts `encodeURIComponent` on every byte string |
| `FormUrlEncoded.DecodeComponentEncode` | src/app/go/page.tsx:34 | a component written by `encodeURIComponent` reads back unchanged through the parser's `+` and `%` decoding |
| `FormUrlEncoded.Parse` | src/lib/telegram.ts:26 | has no contract of its own; `FormUrlEncoded.ParseEncodeQuery` and `FormUrlEncoded.SearchParamsEncodeQuery` state that it recovers the entries of any `encodeURIComponent`-built query |
| `FormUrlEncoded.ParsePair` | src/lib/telegram.ts:26 | has no contract of its own; `FormUrlEncoded.ParsePairEncoded` states that a pair written `name=value` with both halves escaped reads back as that entry |
| `FormUrlEncoded.ParsePairEncoded` | src/lib/telegram.ts:26 | an escaped `name=value` pair is non-empty and parses back to its entry: the name ends at the first `=` |
| `FormUrlEncoded.PercentDecode` | src/lib/telegram.ts:26 | decoding never lengthens the input; `FormUrlEncoded.DecodeEncode` states that it inverts `encodeURIComponent` |
| `FormUrlEncoded.ParseEncodeQuery` | src/lib/telegram.ts:26 | parsing recovers names, values, order and duplicates of any query built with `encodeURIComponent` |
| `FormUrlEncoded.SearchParams` | src/lib/telegram.ts:26 | has no contract of its own; `FormUrlEncoded.SearchParamsEncodeQuery` states that one leading `?` is ignored |
| `FormUrlEncoded.SearchParamsEncodeQuery` | src/lib/telegram.ts:26 | `new URLSearchParams` recovers the entries of an escaped query string, with or without a leading `?` |
| `FormUrlEncoded.Get` | src/lib/telegram.ts:27 | `get` is `None` iff no entry has the name, else the value of the first such entry |
| `FormUrlEncoded.Delete` | src/lib/telegram.ts:34 | `delete` removes every entry with the name, keeps every other entry with its multiplicity, and keeps the entries of each other name in input order |
| `FormUrlEncoded.GetOnlyName` | src/lib/telegram.ts:27 | `get` is the value of the first of the name's entries, and `None` when it has none |
| `FormUrlEncoded.DeleteKeepsOthers` | src/lib/telegram.ts:34-53 | after deleting `hash`, `get` of any other name is unchanged |
| `FormUrlEncoded.GetPermutation` | src/lib/telegram.ts:27 | `get` ignores entry order when no name carries two values |
| `Canonical.Insert` | src/lib/telegram.ts:37 | inserting into a sorted list keeps it sorted and adds exactly that entry |
| `Canonical.SortByName` | src/lib/telegram.ts:37 | the sort returns a permutation of its input, ordered by name |
| `Canonical.SortStable` | src/lib/telegram.ts:37 | entries that share a name keep their input order, as `Array.prototype.sort` is stable |
| `Canonical.SortedUnique` | src/lib/telegram.ts:37 | two sorted arrangements of the same entries are equal when no name carries two values |
| `Canonical.SortOrderIndependent` | src/lib/telegram.ts:37 | the sorted list does not depend on input order when no name carries two values |
| `Canonical.DistinctSortOrderIndependent` | src/lib/telegram.ts:37 | for distinct names, any reordering of the entries sorts to the same list |
| `Canonical.DataStringLines` | src/lib/telegram.ts:40 | without newlines in names and values, the data string splits into exactly one `name=value` line per entry, so no trailing separator |
| `Canonical.DataStringAmbiguous` | src/lib/telegram.ts:40 | for any names and values, a value holding `\n` followed by a `name=value` line gives the same data string as the two separate entries |
| `Canonical.DataString` | src/lib/telegram.ts:40 | has no contract of its own; `Canonical.DataStringLines` states that it is one `name=value` line per entry joined by `\n` |
| `Canonical.SortedExample` | src/lib/telegram.ts:37-40 | `{b=2, a=1}` gives `a=1\nb=2` |
| `InitData.SignedEntries` | src/lib/telegram.ts:34-37 | the signed entries are sorted, hold no `hash` entry, are every other parsed entry with its multiplicity, and list the entries of each name in input order (`a=1&hash=x&a=2` signs `a=1\na=2`) |
| `InitData.ExpectedHash` | src/lib/telegram.ts:43-46 | the expected hash is 64 lowercase hex digits |
| `InitData.NonEmpty` | src/lib/telegram.ts:66 | `chat_instance` is kept iff it is present and non-empty |
| `InitData.Decide` | src/lib/telegram.ts:29-50 | a result is produced only for the supplied hash, and only when that hash equals the expected one |
| `InitData.UserOutcome` | src/lib/telegram.ts:53-68 | a result keeps the extracted hash and the chat instance |
| `InitData.AcceptedIsSigned` | src/lib/telegram.ts:23-50 | an accepted payload carries the first `hash` of the query, which is the HMAC of the data string without `hash`, under `HMAC("WebAppData", botToken)` |
| `InitData.MissingHashRejected` | src/lib/telegram.ts:27-31 | no `hash`, or an empty one, gives `null` |
| `InitData.MismatchRejected` | src/lib/telegram.ts:43-50 | a hash other than the expected one gives `null` |
| `InitData.AcceptedHashIsLowerHex` | src/lib/telegram.ts:46-48 | an accepted hash is 64 lowercase hex digits, so an uppercase hash is never accepted |
| `InitData.CheckStringExcludesHash` | src/lib/telegram.ts:34-40 | an entry is signed iff it was parsed and is not named `hash`, however many `hash` entries there are |
| `InitData.Validate` | src/lib/telegram.ts:23-72 | `validateInitData` itself; it has no contract of its own, and `InitData.AcceptedIsSigned`, `InitData.MissingHashRejected`, `InitData.MismatchRejected` and `InitData.AcceptedHashIsLowerHex` state its behaviour |
| `InitData.ValidateParams` | src/lib/telegram.ts:27-68 | the checks after parsing; it has no contract of its own, and `InitData.SignedOutcome` and `InitData.OrderIndependent` state its behaviour |
| `InitData.SignedOutcome` | src/lib/telegram.ts:52-68 | once the hash matches: an empty or missing `user` gives `user` undefined; a non-empty `user` that fails to parse gives `null`; otherwise the parsed user |
| `InitData.OrderIndependent` | src/lib/telegram.ts:26-68 | reordering the entries never changes the result when no name carries two values |
| `Membership.IsMember` | src/lib/telegram.ts:88-99 | `true` only for an `ok` reply that carries a status |
| `Membership.GetChatMember` | src/lib/telegram.ts:81-100 | has no contract of its own; `Membership.StatusClassification` and `Membership.FailsClosed` classify every reply it can get |
| `Membership.StatusClassification` | src/lib/telegram.ts:94-95 | on an `ok` reply, membership holds iff the status is `member`, `administrator`, `creator` or `restricted` |
| `Membership.DepartedRefused` | src/lib/telegram.ts:94-95 | `left` and `kicked` are never members |
| `Membership.FailsClosed` | src/lib/telegram.ts:88-99 | a failed request or a reply that is not `ok` gives `false` |
| `CheckRoute.InitDataField` | src/app/api/check/route.ts:8-10 | `initData` passes iff it is a non-empty string |
| `CheckRoute.Verified` | src/app/api/check/route.ts:28-49 | after verification the answer is 400 iff the result is `null` or has no truthy `user`, a lookup answer iff additionally a channel is configured, and 500 otherwise |
| `CheckRoute.Status` | src/app/api/check/route.ts:10-56 | has no contract of its own; `CheckRoute.OnlyAnswersSucceed` states that an answer is 200, bad `initData` and failed verification are 400, and a missing configuration and an internal error are 500 |
| `CheckRoute.Handle` | src/app/api/check/route.ts:6-57 | a `{member}` answer requires both config values and a readable non-empty `initData` |
| `CheckRoute.UnreadableBodyIsInternalError` | src/app/api/check/route.ts:8-56 | a body that is not JSON, or is `null`, gives 500 |
| `CheckRoute.BadInputBeforeConfiguration` | src/app/api/check/route.ts:10-15 | bad `initData` gives 400 `Invalid initData` under every configuration |
| `CheckRoute.TokenBeforeVerification` | src/app/api/check/route.ts:17-27 | with no bot token the answer is 500 and depends on neither the verifier, the JSON parser nor the lookup |
| `CheckRoute.VerificationBeforeChannel` | src/app/api/check/route.ts:27-44 | failed verification, or no truthy `user`, gives 400 whatever the channel and the lookup |
| `CheckRoute.ChannelAfterVerification` | src/app/api/check/route.ts:35-44 | a verified user with no channel configured gives 500 |
| `CheckRoute.AnswerIsLookup` | src/app/api/check/route.ts:35-49 | when every check passes, the answer is the lookup's verdict for `user.id` |
| `CheckRoute.NeverFailsOpen` | src/app/api/check/route.ts:27-49 | `{member: true}` implies token and channel are set, the hash is the expected HMAC, `user` is truthy, and the Bot API answered `ok` with an accepted status |
| `CheckRoute.OnlyAnswersSucceed` | src/app/api/check/route.ts:10-56 | only a membership answer is a 200; 400 exactly for `Invalid initData` and `Invalid Telegram initData`; 500 exactly for `Server configuration error` and `Internal server error` |
| `GoPage.SearchParam` | src/app/go/page.tsx:4-8 | absent iff the name has no entry, single iff it has exactly one and then its value, otherwise all its values in order; the single or first value is what `get` returns |
| `GoPage.IsMember` | src/app/go/page.tsx:9 | has no contract of its own; `GoPage.MemberOnlyForExactTrue` states that only the single value `true` passes |
| `GoPage.Go` | src/app/go/page.tsx:11-26 | configuration error iff either URL is unset or empty; a chosen target is never empty |
| `GoPage.MemberOnlyForExactTrue` | src/app/go/page.tsx:8-9 | member iff the value is exactly the single string `true`; `TRUE`, `1`, arrays and absence are not |
| `GoPage.TargetSelection` | src/app/go/page.tsx:13-26 | the member URL for members, the other URL otherwise; fallback iff `ENABLE_FALLBACK_REDIRECT` is exactly `true` |
| `GoPage.OnRedirectFailure` | src/app/go/page.tsx:31-56 | the manual link appears only when the fallback is disabled |
| `GoPage.FailureKeepsTarget` | src/app/go/page.tsx:13-56 | when `Go` redirects and the redirect fails, the manual link is shown iff the fallback flag is not exactly `true` and points at the URL chosen for the member test; otherwise the fallback page reads that URL back as its single `to` |
| `GoPage.FallbackUrl` | src/app/go/page.tsx:34 | has no contract of its own; `GoPage.FallbackQuery` and `GoPage.FallbackCarriesTarget` state that its `to` parameter reads back as the target |
| `GoPage.FallbackQuery` | src/app/go/page.tsx:34 | the fallback URL's query is `to=` followed by the encoded target |
| `GoPage.FallbackCarriesTarget` | src/app/go/page.tsx:34 | parsing the fallback URL's query gives exactly the target as the single `to` value |
| `GoPage.ClientQuery` | src/app/page.tsx:56 | has no contract of its own; `GoPage.ClientQueryRoundTrip` states that the answer arrives unchanged |
| `GoPage.ClientQueryRoundTrip` | src/app/page.tsx:56 | the start page's `/go?member=${data.member}` arrives as member iff the answer was `true` |
| `GoPage.EncodeUnreservedIdentity` | src/app/go/page.tsx:34 | `encodeURIComponent` leaves a string of unreserved bytes unchanged |
| `AccessFlow.Destination` | src/app/go/page.tsx:8-26 | has no contract of its own; `AccessFlow.DestinationFollowsAnswer` states that the answer picks the destination |
| `AccessFlow.DestinationFollowsAnswer` | src/app/go/page.tsx:8-26 | the endpoint's answer picks the member URL iff it was `true` |
| `AccessFlow.MemberDestinationNeedsConfirmation` | src/app/api/check/route.ts:27-49 | with distinct URLs, a visitor whom the start page sends to `/go` after an endpoint answer and who lands on the member URL got a `true` answer, with configured token and channel, a verified signature, a truthy `user` and an `ok` Bot API reply with an accepted status |
| `AccessFlow.TypedQueryReachesMember` | src/app/go/page.tsx:8-26 | `/go` trusts its query: `member=true` typed by hand reaches the member URL, with no endpoint answer involved |

## Left out

- AccessFlow.MemberDestinationNeedsConfirmation: covers only visitors whom the start page sends to `/go` with an endpoint answer. `/go` itself checks nothing, so a hand-typed `member=true` is admitted (`AccessFlow.TypedQueryReachesMember`). This is how the program is written, not a gap in the model.
- HMAC-SHA256 and SHA-256 internals: `mac` is an uninterpreted 32-byte function, and only equality of outputs matters.
- `JSON.parse` internals: `parseJson` is a parameter. JSON numbers are integers here, and fractions are not modelled.
- UTF-8 decoding of names and values: the source decodes each percent-decoded name and value as UTF-8 and re-encodes the data string before signing it. This round trip is the identity on well-formed UTF-8. Ill-formed sequences, which the source replaces by U+FFFD, are kept as they are. Lone UTF-16 surrogates cannot occur.
- The sort comparator: the source sorts with `localeCompare`, and the model uses byte-wise order. Under the root (English) collation the two agree on names of lowercase ASCII letters and `_`, which is the form of the names Telegram issues (`auth_date`, `chat_instance`, `query_id`, `user`, ...). `localeCompare` without a locale argument follows the process's default locale, and under some locales (Czech or Slovak, where `ch` sorts after `h`) it can differ from byte-wise order.
- The outer `catch` of `validateInitData`: once the input is a string, nothing in the body throws except `JSON.parse`, which is caught inside. The function is total and returns `Option`.
- The Bot API request: the URL of `src/lib/telegram.ts:83`, `fetch`, `response.json()` and `console.error` are the `oracle` parameter. Its reply is `Failed` or the `ok` flag with `result.status`.
- `Membership.IsMember`: `data.ok` is a boolean, not JavaScript truthiness of an arbitrary JSON value.
- Environment variables are read as `Option<Text>` inputs. `async`/`await` plumbing is not modelled.
- Next.js `redirect()` control flow: it signals navigation by throwing, so inside the `try` of `src/app/go/page.tsx:28-57` it interacts with the `catch` in framework-specific ways. The model chooses the target and the fallback flag, and says what the `catch` branch shows.
- Timing: the hash comparison is ordinary equality, and timing side channels are outside the model.
- The start page (`src/app/page.tsx`) is modelled only by the query it navigates with, `GoPage.ClientQuery`. Its `fetch` and React state are not modelled.
- The debug, env-test and test pages are not part of this model.
- `src/app/fallback-redirect/page.tsx` is not part of this model. Its second `decodeURIComponent` and its HTML are left out, and only its reading of `to` is modelled, in `GoPage.FallbackCarriesTarget`.
