# logtek-split in Dafny

A model of the decision logic of the Logtek Split server (`server.js`), an
Express service mounted behind a Shopify App Proxy. It has two parts.

- **App Proxy signature check** (`verifyProxySignature`). The handler takes
  the query from the request URL and picks the token: the first `hmac` value,
  or the first `signature` value when `hmac` is missing or empty. It deletes
  every `hmac` and `signature` entry. It serialises the remaining entries
  sorted by name and builds three candidate messages: the local path, the
  path under `/apps/logtek-split`, and `/apps/logtek-split` alone, each
  followed by `?` and the sorted query unless that query is empty. The
  request is accepted on the first candidate whose HMAC-SHA256 hex digest
  equals the token. `timingSafeEqual` compares the two as UTF-8 buffers. Any
  exception rejects the request.
- **Cart partition** (`splitByVendorAndTerms`, the `vendorMap` it reads, and
  `toDraftOrderLine`). Lines whose vendor (`l.vendor || "unknown"`) has an
  eligible vendor account go to that vendor's group. Groups are keyed in
  first-seen order. All other lines go to `payNow`. In `vendorMap` the last
  account for a vendor wins, and its `eligible` flag is coerced with `!!`.

Modules:

- `Strings`: `split` and `join` on one separator character.
- `Bytes`: UTF-8 encoding and `timingSafeEqual`.
- `SearchParams`: `URLSearchParams` parsing, `get`, `delete`, the stable sort
  by name, and `toString`.
- `ProxySignature`: the signature check.
- `JsValues`: JavaScript truthiness on JSON values.
- `CartSplit`: the cart partition.

Several things the code depends on but does not define are parameters of
the model: the secret, HMAC-SHA256, percent-decoding and percent-encoding,
and the `localeCompare` order. They are fields of `ProxySignature.Config`
and `SearchParams.Codec`. A digest is 64 lower-case hex digits by its type.
Each sort lemma names the order properties it needs. Sortedness needs
only a total, transitive order, so it holds even when `localeCompare` ties
distinct names. `SortedHeadsAgree`, `SortedUnique` and
`ReorderingKeepsVerdict` also need antisymmetry, so they do not cover such
ties.

The method `VerifyProxySignature` (with its loop `MatchCandidates`) and the
method `SplitByVendorAndTerms` follow the code statement by statement. They
are proved against the functions `Authentic` and `PartitionOf`, and the
lemmas state the properties of those functions. `BuildVendorMap` is the
loop at `server.js:144-145`.

The code makes these choices, and the model follows them:

- An empty secret is a valid HMAC key in Node, so only an unset secret
  (`None`) makes the check fail. An empty secret is not rejected up front.
- The query is the text between the first and second `?` of the URL, so
  anything after a second `?` is never signed (`QueryStopsAtSecondMark`).
- There are exactly three candidates, all built from the sorted query. There
  is no original-order candidate and no legacy plain-hash scheme.
- `signature` is checked with the same HMAC as `hmac`.

## Model

| member | source | states |
|---|---|---|
| Strings.Split | server.js:28-29 | `s.split(c)` yields at least one part and no part contains `c`. It has two or more parts exactly when `c` occurs in `s`. Part 0 is the text before the first `c`; part 1 is the text between the first and second `c`. |
| Strings.SplitAtFirst | server.js:28-29 | Splitting `a + c + b` at its first `c`, when `a` has no `c`, gives back `a` and `b`. |
| Strings.JoinSplit | server.js:28-29 | Joining the parts of `split(c)` with `c` gives back the string. |
| Strings.SplitJoin | server.js:36-38 | Splitting a join of one or more separator-free parts gives back the parts. A join of no parts is `""`, which splits to `[""]`, so at least one part is required. |
| Strings.Utf16Char | server.js:23 | A BMP character is one code unit, its own code. An astral character is a high surrogate then a low surrogate, which decode back to it. |
| Strings.Utf16 | server.js:23 | A string has at least as many code units as characters. Without astral characters, the units are the characters' codes. |
| Strings.Utf16Concat | server.js:23 | The code units of a concatenation are those of each part in turn. |
| Bytes.EncodeChar | server.js:49 | The UTF-8 encoding of a character is 1 to 4 bytes. Its first byte is below 0x80 exactly when the character is ASCII, and an ASCII character encodes as its own code. |
| Bytes.FromUtf8 | server.js:49 | `Buffer.from(s, "utf8")` has at least as many bytes as `s` has characters, and exactly as many when `s` is ASCII. |
| Bytes.AsciiBytesInjective | server.js:49 | For an ASCII string `a` and any string `b`, the UTF-8 buffers are equal exactly when the strings are. |
| Bytes.TimingSafeEqual | server.js:49 | `timingSafeEqual` throws exactly when the buffer lengths differ. Otherwise it returns true exactly when the buffers are equal. |
| SearchParams.Parse | server.js:30 | `new URLSearchParams(qs)` yields at most one entry per `&`-separated piece, and no entries for an empty query. |
| SearchParams.ParsePieces | server.js:30 | Parsing yields at most one entry per `&`-separated piece, because empty pieces are skipped. |
| SearchParams.SerializePairs | server.js:36-38 | `toString` writes one `encode(name)=encode(value)` piece per entry, in entry order. |
| SearchParams.Serialize | server.js:36-38 | `toString()` is empty exactly when there are no entries. |
| SearchParams.ParsePiecesOfSerialized | server.js:30-38 | Parsing the pieces written for a list of entries gives back that list, under a codec whose decoding inverts its encoding. |
| SearchParams.ParseSerialize | server.js:30-38 | Parsing a serialised query gives back the entries, under a codec whose decoding inverts its encoding. |
| SearchParams.Get | server.js:31-32 | `params.get(name)` is null exactly when no entry has that name. Otherwise it is the value of the first such entry. |
| SearchParams.Delete | server.js:35 | `params.delete(name)` keeps exactly the entries whose name differs. |
| SearchParams.GetConcat | server.js:31-32 | The first entry named `name` in `a + b` is the one in `a` when `a` has one, else the one in `b`. |
| SearchParams.DeleteConcat | server.js:35 | Deleting from a concatenation deletes from each part. |
| SearchParams.WithNameAfterDelete | server.js:35 | After deleting a name, that name has no entries and every other name keeps its entries in order. |
| SearchParams.WithNameConcat | server.js:35-38 | The entries under a name in `a + b` are those in `a` followed by those in `b`. |
| SearchParams.Insert | server.js:37 | Inserting an entry adds exactly that entry to the multiset of entries. |
| SearchParams.SortByName | server.js:37 | The sort is a permutation of the entries. |
| SearchParams.InsertSorted | server.js:37 | Under a total, transitive order, which may tie distinct names, insertion keeps a name-sorted list sorted. |
| SearchParams.SortSorted | server.js:37 | Under a total, transitive order, which may tie distinct names, the sorted entries are in ascending name order. |
| SearchParams.WithNameInsert | server.js:37 | In a sorted list, an inserted entry goes before the entries with the same name. The sort inserts the earlier entries last, so this keeps the sort stable. |
| SearchParams.SortStable | server.js:37 | The sort is stable: the entries under each name keep their relative order. |
| SearchParams.WithNameHasEntry | server.js:31-32 | A name with entries names some entry of the list. |
| SearchParams.SortedHeadsAgree | server.js:37 | Two sorted lists with the same entries per name start with the same entry. |
| SearchParams.SortedUnique | server.js:36-38 | Two name-sorted lists with the same entries per name are equal, so the sorted query depends only on the entries per name. |
| ProxySignature.Short | server.js:23 | `short(s)` is a prefix of the UTF-16 code units of `s`, of length `min(units, 8)`. |
| ProxySignature.ShortOfBmp | server.js:23 | Without astral characters, `short(s)` is the first `min(\|s\|, 8)` characters of `s`. |
| ProxySignature.ShortSplitsSurrogatePair | server.js:23 | Seven BMP characters followed by an astral one: `short` keeps the seven and only the high surrogate of the eighth. |
| ProxySignature.ShortKeepsFourAstral | server.js:23 | Of five astral characters, `short` keeps four. |
| ProxySignature.OriginalUrl | server.js:27 | `req.originalUrl \|\| req.url \|\| ""` is `req.originalUrl` when that is non-empty, and otherwise `req.url`. It is empty exactly when both are. |
| ProxySignature.PathOnly | server.js:28 | `pathOnly` is never empty. It is the URL before its first `?` when that is non-empty, and `/prepare` when that and `req.path` are both empty. |
| ProxySignature.QueryOf | server.js:29 | `qs` holds no `?`. It is the text between the first and second `?` of the URL, and empty when the URL has no `?`. |
| ProxySignature.Provided | server.js:33 | `providedHmac \|\| providedSig` is the `hmac` value when that is non-empty. It is empty exactly when both values are missing or empty, and is otherwise one of the two. |
| ProxySignature.ProvidedToken | server.js:31-33 | A non-empty token is the value of some `hmac` or `signature` entry of the query. |
| ProxySignature.Unsigned | server.js:35 | After the two deletes, an entry is left exactly when it was in the query and is named neither `hmac` nor `signature`. |
| ProxySignature.SortedQuery | server.js:36-38 | `sortedQ` is empty exactly when no entry is left after the two deletes. |
| ProxySignature.WithQuery | server.js:43-45 | A candidate starts with its prefix and equals it exactly when `sortedQ` is empty. |
| ProxySignature.ExpressPath | server.js:27-39 | The path used in the candidates is never empty. It is `req.path` when set, else the URL before its first `?`, else `/prepare`. |
| ProxySignature.Candidates | server.js:40-46 | There are exactly three candidates. In order they start with the local path, the path under `/apps/logtek-split`, and `/apps/logtek-split`. Each equals its prefix exactly when `sortedQ` is empty. Otherwise it is the prefix, then `?`, then `sortedQ`. |
| ProxySignature.Messages | server.js:36-46 | A request has three candidate messages. In order they start with `path`, `/apps/logtek-split` + `path` and `/apps/logtek-split`. Each equals its prefix exactly when no entry remains after the two deletes. |
| ProxySignature.DigestBytes | server.js:48-49 | A hex digest is ASCII and its UTF-8 buffer is 64 bytes long. |
| ProxySignature.CompareDigest | server.js:49 | A token whose UTF-8 buffer is not 64 bytes differs from every digest. Otherwise the buffers agree exactly when the strings do. |
| ProxySignature.AcceptsParams | server.js:31-58 | An accepted request has a secret, and its token is 64 lower-case hex digits. |
| ProxySignature.Authentic | server.js:25-59 | The verdict on a request holds only when the secret is set and the request's token is 64 lower-case hex digits. |
| ProxySignature.MatchCandidates | server.js:47-58 | The loop returns true exactly when the secret is set and some candidate's digest equals the token. It computes at most one digest per candidate. On true, the last digest computed is the first candidate that matches. |
| ProxySignature.VerifyProxySignature | server.js:25-59 | The result is the verdict `Authentic`. No digest is computed when the token is missing or empty, and at most three are computed. On true, the last digest computed is the first matching candidate. |
| ProxySignature.SignedEntries | server.js:35-38 | The signed entries hold nothing under `hmac` or `signature`, and every other name's entries in their original order. |
| ProxySignature.TokenNeverSigned | server.js:35-38 | No signed entry is named `hmac` or `signature`. Under a total, transitive `localeCompare`, ties included, the signed entries are in ascending name order. |
| ProxySignature.SameEntriesSameToken | server.js:31-33 | Queries with the same entries under every name carry the same token. |
| ProxySignature.ReorderingKeepsVerdict | server.js:31-45 | Reordering the query on the wire while keeping each name's entries in order changes neither the signed entries nor the verdict. |
| ProxySignature.OnlyTokensUnsigned | server.js:35 | Deleting both token names from entries that only carry token names leaves nothing. |
| ProxySignature.UnsignedConcat | server.js:35 | Removing the token fields from a concatenation removes them from each part. |
| ProxySignature.HmacTakesPrecedence | server.js:31-35 | With a non-empty `hmac`, the token is its value. Further `hmac` or `signature` entries after it change neither the token nor the verdict. |
| ProxySignature.SignatureFallback | server.js:31-52 | When `hmac` is missing or empty, the request is accepted exactly when `signature` is non-empty, the secret is set, and one of the three candidates' digests equals the `signature` value. |
| ProxySignature.WrongLengthTokenRejected | server.js:49-58 | A token whose UTF-8 buffer is not 64 bytes long is rejected. |
| ProxySignature.BareCandidates | server.js:43-45 | The candidates are the bare prefixes `path`, `/apps/logtek-split` + `path` and `/apps/logtek-split` exactly when no entry besides the token fields remains. |
| ProxySignature.CandidateSplitsBack | server.js:43-45 | When neither the prefix nor the sorted query contains `?`, a candidate splits at `?` back into that prefix and that query. |
| ProxySignature.QueryStopsAtSecondMark | server.js:29 | For a URL `a?b?c`, the query read is `b`. |
| CartSplit.BuildVendorMap | server.js:144-145 | The map records, for each vendor, the coerced flag of the last account naming it, and has no entry for a vendor no account names. |
| CartSplit.LastAccountWins | server.js:145 | The map records `flag` for a vendor exactly when the last account naming that vendor has coerced flag `flag`. |
| CartSplit.UnnamedVendorUnrecorded | server.js:145 | A vendor has no entry exactly when no account names it. |
| CartSplit.VendorKey | server.js:116 | `l.vendor \|\| "unknown"` is `l.vendor` when that is non-empty, and `"unknown"` otherwise. |
| CartSplit.Eligible | server.js:117 | A vendor without an account is not eligible (`?.` and `?? false`). A vendor with one is eligible exactly when its recorded flag is true. |
| CartSplit.Filter | server.js:115-121 | A filtered list is no longer than the input. |
| CartSplit.GroupKeys | server.js:116-119 | Every group key is an eligible vendor. |
| CartSplit.FirstIndex | server.js:115-119 | The first position of a vendor's line, or the line count when it has none: no line before it has that vendor. |
| CartSplit.GroupKeysOccur | server.js:117-119 | A vendor is a key exactly when it is eligible and some line has it. |
| CartSplit.GroupKeysFirstSeen | server.js:115-120 | The keys are in the order of their vendors' first lines. |
| CartSplit.UnseenVendorHasNoLines | server.js:119 | A vendor not yet among the keys has no lines in its group. |
| CartSplit.TracksStep | server.js:115-122 | One loop step keeps `vendors`, `groups` and `payNow` equal to the partition of the lines seen so far. |
| CartSplit.SplitByVendorAndTerms | server.js:112-124 | The result is `PartitionOf(lines, vendorMap)`: keys in first-seen order, each key's group, and `payNow`. |
| CartSplit.FilterConcat | server.js:115-121 | Filtering distributes over concatenation. |
| CartSplit.FilterSound | server.js:115-121 | A line in the filtered list is an input line that passes the test. |
| CartSplit.FilterComplete | server.js:115-121 | An input line that passes the test is in the filtered list. |
| CartSplit.FilterKeepsAll | server.js:115-121 | Filtering keeps a list whose lines all pass. |
| CartSplit.FilterKeepsNone | server.js:115-121 | Filtering empties a list in which no line passes. |
| CartSplit.FilterKeepsOrder | server.js:115-121 | The filtered lines sit in the input at strictly increasing positions. |
| CartSplit.GroupLines | server.js:116-120 | A group holds only input lines of its own vendor, and that vendor is eligible. |
| CartSplit.PayNowLines | server.js:116-121 | `payNow` holds only input lines whose vendor is not eligible. |
| CartSplit.EveryLineRouted | server.js:115-121 | Each input line is in its vendor's group when that vendor is eligible, and in `payNow` otherwise. |
| CartSplit.PartitionKeepsOrder | server.js:115-121 | `payNow` and every group list their lines in input order. |
| CartSplit.GroupKeysExact | server.js:119-120 | The keys are distinct, and a vendor is a key exactly when its group is non-empty. |
| CartSplit.Flatten | server.js:148 | Each line read from `groups.entries()` in key order belongs to the group of one of the keys. |
| CartSplit.FlattenIsGrouped | server.js:148 | The groups read in key order, as `groups.entries()` visits them, are the group of each key in turn. |
| CartSplit.GroupedAppendLine | server.js:118-120 | One more line adds itself to the grouped lines exactly when its vendor is an eligible key. |
| CartSplit.GroupedOfUnseen | server.js:118-120 | A line of a vendor outside the keys leaves their groups unchanged. |
| CartSplit.GroupedNewVendor | server.js:119-120 | A line of a new eligible vendor appends a group that holds only that line. |
| CartSplit.GroupedPermutation | server.js:112-124 | The groups in key order, followed by `payNow`, are a permutation of the input. |
| CartSplit.PartitionIsPermutation | server.js:112-124 | Every input line appears in the result exactly as often as in the input, either in one group or in `payNow`. |
| CartSplit.GroupKeysOfIneligible | server.js:117-121 | Lines whose vendor is not eligible add no keys. |
| CartSplit.GroupKeysOfOneVendor | server.js:119 | Lines of one new eligible vendor add just that vendor as a key. |
| CartSplit.GroupKeysOfGrouped | server.js:112-124 | Re-partitioning the grouped lines gives the same keys in the same order. |
| CartSplit.GroupOfGrouped | server.js:112-124 | Re-partitioning the grouped lines gives each key the same group. |
| CartSplit.PayNowOfGrouped | server.js:112-124 | Re-partitioning the grouped lines puts nothing in `payNow`. |
| CartSplit.RegroupedKeys | server.js:112-124 | Re-partitioning the groups followed by `payNow` gives the same keys. |
| CartSplit.RegroupedPayNow | server.js:112-124 | Re-partitioning the groups followed by `payNow` gives the same `payNow`. |
| CartSplit.RegroupedGroup | server.js:112-124 | Re-partitioning the groups followed by `payNow` gives each key the same group. |
| CartSplit.PartitionIdempotent | server.js:112-124 | Partitioning the result again, groups in key order followed by `payNow`, gives back the same partition. |
| JsValues.Truthy | server.js:127-128 | The falsy JSON values are exactly `false`, `0`, `""`, `null` and `undefined`. |
| CartSplit.ToDraftOrderLine | server.js:126-130 | The title is copied. The quantity is always truthy: it is the line's quantity when truthy, else 1. `variantId` is present exactly when the line's is truthy, and then has its value. |

## Left out

- Express routing, body parsing, `/health`, the 403 response and `app.listen` (`server.js:9-21`, `132-160`). This is HTTP plumbing, and the only decision in it is to reject when the check fails.
- `adminGraphQL`, `fetchCustomerVendorAccounts` and `createDraftOrder` (`server.js:61-110`), and the loop that creates one draft order per group (`server.js:147-153`). These are network calls to the Shopify Admin API. The accounts reach `BuildVendorMap` as a list, and a metafield that does not parse to an array is not modelled.
- `console.log` and `console.error` lines and the environment variables (`server.js:10-18`, `50`, `53`, `56`). The secret is `Config.secret`, with `None` for an unset variable. `Short` is modelled even though only the log lines use it.
- HMAC-SHA256 is the parameter `Config.hmac`. Its only property in the model is that it yields 64 lower-case hex digits.
- Bytes.TimingSafeEqual: constant-time behaviour is not expressible; the model is plain equality plus the length-mismatch exception.
- SearchParams.Parse: percent-decoding (including `+` as space) is the parameter `Codec.decode`, and percent-encoding in `toString` is `Codec.encode`. The round-trip lemmas assume decoding inverts encoding and that encoded text contains no `&` or `=`.
- SearchParams.SortByName: `localeCompare` is the parameter `keyLeq`. The sort is stable, as JavaScript's sort is required to be. `InsertSorted`, `SortSorted` and `TokenNeverSigned` assume only a total, transitive order. `SortedHeadsAgree`, `SortedUnique` and `ReorderingKeepsVerdict` also assume antisymmetry. `localeCompare` can return 0 for distinct strings, and those three do not cover that case.
- Bytes.FromUtf8: strings are sequences of Unicode scalar values, so lone UTF-16 surrogates, which `Buffer.from` replaces with U+FFFD, are not modelled.
- Strings.Utf16: the input strings hold no lone surrogate, for the same reason. `Short` returns code units, so its result can end in half a pair.
- CartSplit.Line: `vendor` is a string, with the empty string standing for a missing or falsy vendor. Non-string vendors and their conversion to property keys are not modelled, and neither are object keys that collide with `Object.prototype` members. A `null` line makes `l.vendor` throw at `server.js:116`, and a `null` vendor account makes `v.vendor` throw at `server.js:145`. Either is caught at `server.js:154` and ends in the 500 response. `Line` and `VendorAccount` have no null value, so the model does not express this throw.
- JsValues.Truthy: JSON has no `NaN`, so the falsy `NaN` quantity is not modelled.
- ProxySignature.VerifyProxySignature: `digests`, the count of HMAC computations, is ghost. It exists only to state that no digest is computed for an empty token, and that the accepted candidate is the first that matches.
