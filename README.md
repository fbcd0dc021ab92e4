# HTTPClient response validation and header formatting, in Dafny

This project models the two self-contained pieces of logic in the HTTPClient
Swift package. Everything else in the package hands its work to the platform's
HTTP, JSON and logging libraries.

- **Response validation** (`url_response.dfy`, module `URLResponseExtensions`).
  A response has an integer code. For an HTTP response this is the status
  code. For any other kind of response it is `-1`. A response is a success
  when its code lies in the half-open range `200..<299`. The validity check
  returns normally on success. Otherwise it throws an error with an empty
  domain that carries the response's code. The range is modelled as written,
  so 299 is not a success. Lemmas pin both ends of the range and compare it
  with the usual 2xx class.
- **Header formatting** (`headers_format.dfy`, module `HeadersExtensions`).
  A header dictionary becomes log text by a fold. The fold starts from `""`
  and appends `"<name>: <value>\n"` once per entry. Dictionary iteration
  order is unspecified, so the model takes a header collection as the
  sequence of its entries in the order visited. `IsIterationOrder(h, m)`
  says that `h` lists every entry of dictionary `m` exactly once. The lemmas
  cover:
  - the append step;
  - the identity with in-order concatenation;
  - the output length;
  - independence of the output length from iteration order;
  - the trailing newline;
  - where each entry's piece sits in the output;
  - the text determining the entries, when names contain no `':'` or newline and
    values no newline.

Three facts about the code shape the model:
- The success range `200..<299` leaves out 299, the last code of the 2xx class. The model keeps this exclusion.
- Nothing in `Sources/HTTPClient/HTTPClient.swift` calls `checkValidity`, so the validator is modelled on its own.
- Headers are emitted in the dictionary's iteration order. The model takes that order as a parameter.

## Model

| member | source | states |
|---|---|---|
| URLResponseExtensions.Code | Sources/HTTPClient/Extensions/URLResponse+Extensions.swift:11-13 | an HTTP response's code is its status code; a non-HTTP response's code is -1 |
| URLResponseExtensions.IsSuccess | Sources/HTTPClient/Extensions/URLResponse+Extensions.swift:15-17 | success holds exactly when 200 <= code < 299 |
| URLResponseExtensions.CheckValidity | Sources/HTTPClient/Extensions/URLResponse+Extensions.swift:19-23 | the check passes if and only if the response is a success; a failure carries the response's code in an empty domain |
| URLResponseExtensions.CodeDeterminesResponse | Sources/HTTPClient/Extensions/URLResponse+Extensions.swift:12 | any code other than -1 identifies an HTTP response with exactly that status; -1 comes only from a non-HTTP response or an HTTP status of -1 |
| URLResponseExtensions.SuccessIsTwoHundredsExceptLast | Sources/HTTPClient/Extensions/URLResponse+Extensions.swift:16 | success is the same as "HTTP response whose status is in the 2xx class and is not 299" |
| URLResponseExtensions.SuccessBoundaries | Sources/HTTPClient/Extensions/URLResponse+Extensions.swift:16 | 200 and 298 are successes; 199 and 299 are not |
| URLResponseExtensions.NonHTTPNeverSuccess | Sources/HTTPClient/Extensions/URLResponse+Extensions.swift:12-16 | a non-HTTP response has code -1 and is never a success |
| URLResponseExtensions.CheckValidityExamples | Sources/HTTPClient/Extensions/URLResponse+Extensions.swift:19-22 | 200 passes; 404, 500 and 299 fail with their own code; a non-HTTP response fails with -1 |
| HeadersExtensions.Piece | Sources/HTTPClient/Extensions/Headers+Extensions.swift:11 | an entry's piece is its name, then ": ", then its value, then a newline, and is 3 longer than name and value together |
| HeadersExtensions.Step | Sources/HTTPClient/Extensions/Headers+Extensions.swift:10-12 | a fold step keeps the partial result as a prefix and appends exactly the entry's piece |
| HeadersExtensions.ReduceIsConcat | Sources/HTTPClient/Extensions/Headers+Extensions.swift:10-12 | the fold from any seed equals the seed followed by the in-order concatenation of the pieces |
| HeadersExtensions.FormattedIsConcat | Sources/HTTPClient/Extensions/Headers+Extensions.swift:9-13 | the formatted text is the in-order concatenation of the entries' pieces |
| HeadersExtensions.FormattedEmpty | Sources/HTTPClient/Extensions/Headers+Extensions.swift:10 | an empty header collection formats to the empty string |
| HeadersExtensions.FormattedAppend | Sources/HTTPClient/Extensions/Headers+Extensions.swift:10-11 | formatting s followed by (k, v) is formatting s followed by k + ": " + v + "\n" |
| HeadersExtensions.FormattedLength | Sources/HTTPClient/Extensions/Headers+Extensions.swift:11 | the output length is the sum over entries of name length + value length + 3 |
| HeadersExtensions.FormattedLengthPermutation | Sources/HTTPClient/Extensions/Headers+Extensions.swift:10-12 | any reordering of the entries (equal multisets) gives output of the same length |
| HeadersExtensions.IterationOrdersArePermutations | Sources/HTTPClient/Typealiases.swift:10 | two iteration orders of one dictionary hold the same multiset of entries |
| HeadersExtensions.FormattedLengthIndependentOfOrder | Sources/HTTPClient/Extensions/Headers+Extensions.swift:10-12 | the output length of a dictionary is the same for every iteration order |
| HeadersExtensions.FormattedEndsWithNewline | Sources/HTTPClient/Extensions/Headers+Extensions.swift:11 | a non-empty collection formats to non-empty text ending in a newline |
| HeadersExtensions.PieceOccurs | Sources/HTTPClient/Extensions/Headers+Extensions.swift:10-12 | each entry's piece occurs contiguously in the output, starting right after the text of the entries before it |
| HeadersExtensions.EveryEntryOccurs | Sources/HTTPClient/Extensions/Headers+Extensions.swift:10-12 | for every name in the dictionary, its piece with its value occurs in the output, whatever the iteration order |
| HeadersExtensions.FormattedInjective | Sources/HTTPClient/Extensions/Headers+Extensions.swift:9-13 | if no name contains ':' or a newline and no value a newline, equal output means equal entries in equal order: the text determines the entries |

## Left out

- HTTPClient.get, post and delete in `Sources/HTTPClient/HTTPClient.swift` are not modelled. Their behaviour is the platform's network call and JSON codecs, plus catch, log and rethrow.
- String.buildURL in `Sources/HTTPClient/Extensions/String+URL.swift` is not modelled. URL parsing and query encoding happen inside the platform's URL components type.
- Data.prettyJSON in `Sources/HTTPClient/Extensions/Data+Extensions.swift` is not modelled. It wraps the platform's JSON parser and pretty-printer.
- Logger.logRequest, logResponse and logError in `Sources/HTTPClient/Extensions/Logger+Extensions.swift` are not modelled. They only write to the system log, which is I/O.
- URLRequest.set(headers:) in `Sources/HTTPClient/Extensions/URLRequest+Headers.swift` is not modelled. It is a loop over the platform's header setter, whose rules (such as case-insensitive names) cannot be seen.
- `Sources/HTTPClient/Typealiases.swift` holds only type aliases. `Headers` becomes a sequence of (name, value) pairs, tied to a `map<string, string>` by `IsIterationOrder`.
- The actual iteration order of Swift dictionaries is unspecified. The order is a parameter of the model, not computed.
- Piece: lengths count Dafny characters (Unicode scalar values), not Swift grapheme clusters.
- FormattedLength: the length it sums is in Unicode scalar values, not Swift grapheme clusters.
- DistinctNames: names are compared scalar by scalar. Swift compares strings by canonical equivalence, so two keys that differ only in Unicode normalisation are one key in Swift but two names here. The same holds for IsIterationOrder and FormattedInjective.
- Code: status codes are unbounded integers. The check compares only, so the width of Swift's `Int` does not matter.
- Networking, concurrency, caching and timeouts belong to the platform HTTP engine and are out of scope.
