# everconnect-api `/api/files`: a verified model

This project models the part of the everconnect API server that turns profile
records into file entries. The server reads rows of the `profiles` table newest
first. It shapes each row into an entry with exactly the keys `"First Name"`,
`"Phone Number"` and `"File Upload"`. It serves these entries by one position
(`GET /api/files/:index`), by several positions (`GET /api/files/0/2/5`), or as
one listing of at most 100 (`GET /api/files`). The file URL of an entry is
rebuilt from the row's stored path. The path's last segment is taken, every
`[n]` counter is deleted from it, the name is percent-encoded, and the result is
put under the public URL of the `user-files` bucket.

Everything here is pure and is written as Dafny functions and lemmas, one module
per concern:

- `Base`: `Option`.
- `Text`: JavaScript's `split('/')`, the last path segment, `filter(part => part !== '')`
  and the decimal printing of an index.
- `JsParseInt`: `parseInt(string)` as section 18.2.5 of ECMA-262 6th edition
  defines it: leading white space, a sign, a `0x` prefix and the longest digit run.
- `UriComponent`: `encodeURIComponent` as sections 18.2.6.1 and 18.2.6.5 of
  ECMA-262 6th edition define it, including UTF-8. It comes with
  `decodeURIComponent` as its inverse.
- `BracketStrip`: `replace(/\[\d+\]/g, '')`.
- `FileIndex`: profiles, entries, the store, the three handlers and the route
  table.

The store is a value. `Online(rows)` holds the table already ordered by
`created_at` descending, and `Offline` fails every query. `.range(from, to)`
becomes `Window` and `.limit(n)` becomes `Limit`. A handler is a function from
the path parameter and the store to a `Response`: a JSON body with a status, or
a redirect.

## Model

| member | source | states |
|---|---|---|
| `Text.Split` | server.js:70 | `split('/')` yields at least one piece, and no piece contains the separator |
| `Text.JoinSplit` | server.js:70 | joining the pieces of a split with the separator gives the path back |
| `Text.SplitJoin` | server.js:70 | splitting a join of separator-free pieces gives the pieces back |
| `Text.LastSegment` | server.js:70-71 | the file name has no `/`, it is a suffix of the path, and either it is the whole path or a `/` stands right before it; a path without `/` is its own name |
| `Text.LastSegmentAfterSlash` | server.js:70-71 | the name of `dir/name` is `name` whenever `name` has no `/` |
| `Text.NonEmpty` | server.js:104 | the kept segments are the non-empty ones, none is lost and none is invented |
| `Text.NonEmptySingle` | server.js:104 | one segment is dropped when it is empty and kept otherwise |
| `Text.NonEmptyAppend` | server.js:104 | the filter works segment by segment, so it keeps the order and the duplicates of the kept segments |
| `Text.DecimalString` | server.js:60 | an index prints as decimal digits without a leading zero |
| `JsParseInt.ParseInt` | server.js:31 | `parseInt`; `LeadingDigits`, `NoDigitIsNaN`, `NegativeNeedsMinus` and `MinusDigits` state what it reads |
| `JsParseInt.ValueOfDecimalString` | server.js:31 | reading the printed digits of `n` gives `n` |
| `JsParseInt.LeadingDigits` | server.js:31 | parseInt reads the leading digit run and ignores what follows it |
| `JsParseInt.ParseDecimalString` | server.js:31 | parseInt of a printed index is that index when the text after it does not start with a digit, nor with `x` or `X` after a lone `0` (which would read as a hexadecimal prefix) |
| `JsParseInt.NoDigitIsNaN` | server.js:39 | a segment without any decimal digit is NaN |
| `JsParseInt.NegativeNeedsMinus` | server.js:39 | only a segment that contains `-` can parse to a negative index |
| `JsParseInt.MinusDigits` | server.js:39 | a `-` before a digit run gives the negated value |
| `JsParseInt.FirstIsNaN` | server.js:31-36 | `first` is NaN to parseInt, which is why the handler tests for it by name |
| `JsParseInt.TrailingTextIgnored` | server.js:31 | `12abc` parses to 12 |
| `UriComponent.Encode` | server.js:77 | `encodeURIComponent`; `DecodeEncode`, `EncodeWellFormed`, `NoSlash` and `EncodeIdentity` state what it gives |
| `UriComponent.Utf8RoundTrip` | server.js:77 | the UTF-8 octets of a code point decode back to it, and its lead octet gives their count |
| `UriComponent.DecodeEncode` | server.js:77 | decodeURIComponent gives back the name that encodeURIComponent encoded |
| `UriComponent.EncodeWellFormed` | server.js:77 | the encoded name holds only unreserved characters and upper-case `%XY` triplets |
| `UriComponent.NoSlash` | server.js:77 | the encoded name holds no `/`, so it is one path segment |
| `UriComponent.EncodeIdentity` | server.js:77 | encoding leaves a name unchanged exactly when all its characters are unreserved, and it never shortens a name |
| `BracketStrip.StripGroups` | server.js:73 | the counter-stripping `replace`; the lemmas below state what it keeps and removes |
| `BracketStrip.GroupLengthMatch` | server.js:73 | a match at the front of the name is a whole `[` digits `]` group |
| `BracketStrip.GroupLengthExact` | server.js:73 | a group at the front is matched exactly, whatever follows it |
| `BracketStrip.StripKeepsPlain` | server.js:73 | every character that is not a bracket or a digit survives, in order |
| `BracketStrip.StripSubMultiset` | server.js:73 | stripping adds no character |
| `BracketStrip.StripUnchangedIffNoGroup` | server.js:73 | a name without a group is unchanged, and a name with one gets strictly shorter |
| `BracketStrip.StripAfterPlainPrefix` | server.js:73 | text before the first `[` passes through untouched |
| `BracketStrip.StripLeadingGroup` | server.js:73 | a group at the front is deleted as a whole |
| `BracketStrip.CounterRemoved` | server.js:72-73 | `stem[n]ext` becomes `stemext` when neither stem nor ext holds a `[` |
| `BracketStrip.OnePassLeavesGroup` | server.js:73 | one pass turns `a[[1]2]` into `a[2]`, so the pass is not idempotent |
| `BracketStrip.SecondPassRemovesIt` | server.js:73 | a second pass would turn `a[2]` into `a` |
| `FileIndex.SupabaseUrl` | server.js:14 | the project URL is `SUPABASE_URL` when it is set and not empty, else the built-in default, and never empty |
| `FileIndex.CleanFileName` | server.js:70-73 | the clean name holds no `/`; a name that has no `/` and no group is kept as it is |
| `FileIndex.ShapeEntry` | server.js:84-88 | "First Name" and "Phone Number" hold the field when it is truthy and `""` otherwise |
| `FileIndex.FileUrl` | server.js:65-80 | the file URL of a row; `FileUploadEmptyIff` and `FileUploadUrl` state what it is |
| `FileIndex.FileUploadEmptyIff` | server.js:65-87 | "File Upload" is `""` exactly when the file path or the owner id is missing or empty |
| `FileIndex.FileUploadUrl` | server.js:68-79 | otherwise it is the bucket URL, the owner id, `/`, and one well-formed encoded segment that decodes to the clean name |
| `FileIndex.CounterStrippedFromUrl` | server.js:68-79 | `owner/photo[1].png` is served as `<bucket>/owner/photo.png` |
| `FileIndex.Window` | server.js:51 | `.range(from, to)` yields the existing rows from `from` to `to` inclusive, in store order |
| `FileIndex.Limit` | server.js:178 | `.limit(n)` yields the first `min(n, rows)` rows |
| `FileIndex.ShapeAll` | server.js:185-208 | the listing maps every profile to its entry one to one, in order |
| `FileIndex.ListAll` | server.js:171-218 | the listing route; `ListAllOutcome` states what it answers |
| `FileIndex.ListAllOutcome` | server.js:171-218 | list-all returns the first `min(100, rows)` profiles' entries in store order, and a store fault is a 500 |
| `FileIndex.FileByIndex` | server.js:29-98 | the single-position route; `FileByIndexOutcome` and `FirstIsPositionZero` state what it answers |
| `FileIndex.FileByIndexOutcome` | server.js:29-98 | a segment that is NaN or negative gives 400, an index past the end gives 404 with its message, otherwise exactly the entry of the profile at that offset; a store fault gives 500 |
| `FileIndex.IndexOf` | server.js:105-108 | a segment's index; `DecimalIndex` and `ValidIndicesSingle` state what it reads |
| `FileIndex.ValidIndices` | server.js:105-109 | every segment that is `first` or a non-negative number contributes its index, and nothing else does |
| `FileIndex.ValidIndicesSingle` | server.js:105-108 | one segment contributes its own index, or nothing when it is not one |
| `FileIndex.ValidIndicesAppend` | server.js:105-109 | the indices come segment by segment, in path order, duplicates kept |
| `FileIndex.Insert` | server.js:117 | inserting into an ascending list keeps it strictly ascending and adds exactly the new value |
| `FileIndex.SortedUnique` | server.js:117 | the de-duplicated indices are strictly ascending and are exactly the requested values |
| `FileIndex.IncreasingUnique` | server.js:117 | two strictly ascending lists with the same elements are equal, so the order of the request and its duplicates do not matter |
| `FileIndex.MaxOf` | server.js:118 | `Math.max` returns a requested index that no other exceeds |
| `FileIndex.InRange` | server.js:133 | the kept indices are exactly the requested ones below the fetched count, still ascending, and no more than requested |
| `FileIndex.Project` | server.js:132-158 | the k-th entry is the entry of the profile at the k-th kept index |
| `FileIndex.PrefixCoversRequested` | server.js:118-133 | fetching `range(0, max)` keeps exactly the requested indices that the whole table holds, at the same rows |
| `FileIndex.BatchFallsBackToListAll` | server.js:111-114 | with no valid index in the path the batch route answers what list-all answers |
| `FileIndex.EntriesAtOutcome` | server.js:116-160 | the batch answers, once each and ascending, the entries of the requested indices that the table holds, dropping the others without error |
| `FileIndex.FilesByIndices` | server.js:101-168 | the batch route; `FilesByIndicesOutcome`, `BatchFallsBackToListAll` and `FilesByIndicesOffline` state what it answers |
| `FileIndex.EntriesAt` | server.js:116-160 | the batch of valid indices; `EntriesAtOutcome` states what it answers |
| `FileIndex.FilesByIndicesOutcome` | server.js:101-160 | with some valid index, the batch route answers 200 with the entries of the requested positions the table holds, once each and ascending |
| `FileIndex.FilesByIndicesOffline` | server.js:127-166 | a store fault on the batch route, or on its fallback, is a 500 |
| `FileIndex.BatchExample` | server.js:116-158 | positions 2, 0, 2, 5 against four profiles give the entries of profiles 0 and 2, in that order |
| `FileIndex.SegmentsExample` | server.js:104 | the path `2/0/2/5` has the four segments `2`, `0`, `2`, `5` |
| `FileIndex.DecimalIndex` | server.js:105-109 | a printed index is read back as that index |
| `FileIndex.Dispatch` | server.js:29-220 | the route table; `DispatchOneSegment` and `DispatchSeveralSegments` state where a path goes |
| `FileIndex.DispatchOneSegment` | server.js:29 | a path of one non-empty segment, with or without a trailing `/`, reaches the single-index handler |
| `FileIndex.DispatchSeveralSegments` | server.js:101 | any other path behind `/api/files/` reaches the batch handler with the rest of the path |
| `FileIndex.FirstIsPositionZero` | server.js:33-36 | `first` redirects to `/api/files/0`, which answers the newest profile, or 404 on an empty table |

## Left out

- Express setup, CORS, the JSON middleware, `/health` and `app.listen` are framework plumbing.
- The Supabase client and its queries are replaced by the `Store` value. Each query is assumed to return the newest-first slice it asks for. A server-side row cap of the hosted store is not modelled.
- `async`/`await` and the `try`/`catch` are not modelled as such. Their only visible effect is that a store fault becomes a 500 with the handler's message, and that is modelled.
- Console logging is a side effect only.
- test-direct.js, test-api.js and test-mock.js are scripts that call the hosted services or print fixed JSON. The rich `{Name, File, PhoneNumber, Email}` shape, e-mail enrichment and signed URLs appear only there, not in server.js.
- `FileIndex.Dispatch` works on the path after Express has decoded its parameters. Express's case-insensitive matching and the matching of raw, still-encoded paths (a `%2F` inside a segment) are not modelled.
- `JsParseInt.ParseInt` returns an unbounded integer. JavaScript numbers lose precision past 2^53, and parseInt's `-0` is folded into 0. Every use in the handlers (`< 0`, `>= 0`, indexing, printing) treats `-0` as 0.
- `Text.DecimalString` prints every index in plain decimal. JavaScript switches to exponent notation at 10^21.
- `UriComponent.Encode` works on Unicode scalar values. A JavaScript string holding a lone surrogate, for which `encodeURIComponent` throws `URIError` (a 500 here), cannot be written as a Dafny string.
- Profile fields are strings or missing. A non-string `file_path` would make `split` throw, and that is not modelled.
- The 302 status is Express's default for `res.redirect`. The redirect itself is followed by the client, and `FileIndex.FirstIsPositionZero` follows it by dispatching `/api/files/0`.
