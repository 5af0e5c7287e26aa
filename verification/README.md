# TMDb relay: request translation and status mapping

This project models the two proxy routes of the TMDb relay server, `GET /tmdb` and
`GET /image` in `server.js`. Each route turns a caller's query into one of two things:
a 400 rejection, or a URL that is handed to `fetch`. Each route then maps the upstream
reply to a response: the body on an ok status, otherwise a 500 error object.

The modules follow the data flow of a `/tmdb` request:

- `SearchParams` models the pair list of a `URLSearchParams` object.
  - `Without` models the object rest pattern that splits `url` off the query.
  - `Get` models a property read.
  - `Set` models `set` as defined in section 6.2 of the WHATWG URL Standard.
  - `SetAsWorded` is a second, literal reading of that section.
- `FormUrlencoded` and `Utf8` model `toString()`, the application/x-www-form-urlencoded
  serializer from section 5.2 of the WHATWG URL Standard, together with a matching
  parser (section 5.1).
- `Requests` models both request builders and the fixed bases, hosts and messages.
  The caller's query is a JavaScript object, so `QueryObject` is a pair list with
  distinct names.
- `UrlView` models how the receiving server reads the fetched URL string: the cleanup,
  host and query boundaries of the basic URL parser (section 4.4 of the WHATWG URL
  Standard), for the `https:` URLs the relay builds.
- `Responses` models the `try`/`catch` of both routes. `Decimal` models the numeral of
  the status in the error message.
- `Relay` composes each route end to end, with `fetch` as a function parameter.
- `UrlInjection` records the finding below and the corrected `/tmdb` builder.

The server's key (`process.env.TMDB_API_KEY`) is a parameter `env: Option<string>`.
An unset variable is `None`, which `set` receives as the string "undefined".

## Model

| member | source | states |
|---|---|---|
| Requests.MetadataRequest | server.js:15-25 | Rejects with `Missing required parameter "url"` exactly when `url` is absent or empty. Otherwise the URL is the metadata base, then `url` verbatim, then `?`, and the remainder parses back to exactly the forwarded pair list. |
| Requests.ImageRequest | server.js:41-44 | Rejects with `Missing image path` exactly when `path` is absent or empty. Otherwise the URL is the `w500` image base followed by `path` verbatim. |
| Requests.Credential | server.js:23 | The credential `set` receives is the environment variable's value when it is set, and the string "undefined" when it is not. |
| Requests.ForwardedParams | server.js:17-23 | The outgoing pair list holds `api_key` exactly once, and every `api_key` pair carries the server's credential. Without `api_key`, it equals the caller's list minus `url` and `api_key`. |
| Requests.ForwardedCredential | server.js:22-23 | The outgoing query holds `api_key` exactly once, and its value is the server's key, whatever the caller sent under that name. It never holds `url`, and its names stay distinct. |
| Requests.ForwardedCallerPairs | server.js:17-23 | Apart from `api_key`, the outgoing list is exactly the caller's list minus `url` and `api_key`, in the caller's order. Every such caller pair is forwarded. |
| Requests.ForwardedCredentialPosition | server.js:22-23 | The server's `api_key` takes the place of the caller's own `api_key` pair when there is one. Otherwise it is appended after all caller pairs. |
| Requests.MetadataRequestHost | server.js:25 | Whatever `url` the caller supplies, the URL parser sends the metadata request to `api.themoviedb.org`. |
| Requests.ImageRequestHost | server.js:44 | Whatever `path` the caller supplies, the URL parser sends the image request to `image.tmdb.org`. |
| SearchParams.Get | server.js:17 | A lookup finds nothing exactly when no pair has the name. A value it finds is the value of the first pair with that name. |
| SearchParams.Without | server.js:17 | Removes exactly the pairs with the name: their count plus the result's length is the input length, no result pair has the name, and a list without the name is unchanged. |
| SearchParams.WithoutAppend | server.js:17 | Removal distributes over concatenation, so the remaining pairs keep their order. |
| SearchParams.InWithout | server.js:17 | A pair is in the list after removal exactly when it was in the list and has a different name. |
| SearchParams.WithoutLeavesOtherNames | server.js:17 | Removing one name leaves every lookup of another name as it was. |
| SearchParams.Set | server.js:23 | After `set`, the name occurs exactly once with the new value, and the pairs with other names are the same and in the same order. |
| SearchParams.SetIsAsWorded | server.js:23 | `Set` equals the literal reading of `set`: replace the first pair with the name and drop the later ones, or append when there is none. |
| SearchParams.SetThenGet | server.js:23 | After `set`, a lookup of the name returns the new value. |
| SearchParams.SetLeavesOtherNames | server.js:23 | `set` leaves every lookup of another name as it was. |
| SearchParams.SetTwice | server.js:23 | Setting the same name twice is the same as setting it once to the second value. |
| SearchParams.SetKeepsNamesDistinct | server.js:23 | `set` keeps a list with distinct names distinct. |
| SearchParams.WithoutKeepsNamesDistinct | server.js:17 | Removing a name keeps a list with distinct names distinct. |
| FormUrlencoded.EncodeComponent | server.js:25 | An encoded name or value holds only the serializer's output characters, and never `=` or `&`. |
| FormUrlencoded.EncodeUnreserved | server.js:25 | A string made only of alphanumerics and `*-._` is serialized unchanged. |
| FormUrlencoded.Serialize | server.js:25 | The query string is made only of characters allowed in a query, and it is empty exactly when the list is. |
| FormUrlencoded.ParseSerialize | server.js:25 | Parsing the serialized query gives back the pair list exactly, so no name, value or order is lost. |
| FormUrlencoded.SerializeInjective | server.js:25 | Different pair lists serialize to different query strings. |
| FormUrlencoded.SerializedVisible | server.js:25 | A serialized query holds only printable ASCII outside the special-query percent-encode set, and no `#` or `?`. So the URL parser copies it unchanged, neither trimming it nor reading a fragment inside it. |
| Utf8.EncodeChar | server.js:25 | A scalar value encodes to one to four bytes. It is one byte exactly when it is ASCII, and the later bytes are continuation bytes. |
| Utf8.Encode | server.js:25 | A string's UTF-8 encoding has between one and four bytes per character. |
| Utf8.DecodeEncode | server.js:25 | Strict decoding of the UTF-8 encoding gives back the string. |
| Utf8.EncodeInjective | server.js:25 | Different strings have different UTF-8 encodings. |
| UrlView.QueryOfAfterBase | server.js:28 | Take `https://`, a domain host, `/` and more text free of `?`, `#`, spaces and control characters, then a path without `?` or `#`, a `?`, a query text of characters the parser does not percent-encode, then nothing or a fragment. The parser accepts such a URL, and the receiving server reads exactly that query text. |
| UrlView.HostAfterBase | server.js:44 | For `https://host/...` with a domain host, the request goes to `host`, whatever follows the first `/`. A domain host is not empty and is made of lower-case letters, digits, `.` and `-`. Its last label starts with a letter, so the parser does not read the host as an IPv4 address, and no label starts `xn--`. |
| Requests.MetadataHostIsDomain | server.js:25 | The metadata host `api.themoviedb.org` is such a domain host. |
| Requests.ImageHostIsDomain | server.js:44 | The image host `image.tmdb.org` is such a domain host. |
| Decimal.FromNat | server.js:29 | The numeral of a status is made of digits, with no leading zero. |
| Decimal.ValueFromNat | server.js:29 | The numeral of a status reads back as that status. |
| Responses.Settle | server.js:28-35 | The route relays a body exactly when the status is ok and the body was read, and the body is the upstream's. Every other outcome is a 500 with the route's error text. A non-ok status gives details with the prefix and the status, and a network or body failure gives its own message. |
| Responses.MetadataResponse | server.js:28-35 | For `/tmdb`: 200 with the parsed body exactly on an ok status and a read body. Otherwise 500 `TMDb proxy failed`, with `TMDb API error: <status>` for a non-ok status. |
| Responses.ImageResponse | server.js:45-54 | For `/image`: 200 with the bytes exactly on an ok status and a read body. Otherwise 500 `Image proxy failed`, with `TMDb image error: <status>` for a non-ok status. |
| Relay.Tmdb | server.js:15-37 | The route answers 400 exactly when `url` is missing. Otherwise it relays a body exactly when `fetch` of the built URL returned an ok status and the body was read, and that body is the one relayed. Any other outcome is a 500 `TMDb proxy failed`. A non-ok status gives details `TMDb API error: <status>`, and a failed fetch gives its message. |
| Relay.Image | server.js:39-56 | The route answers 400 exactly when `path` is missing. Otherwise it relays bytes exactly when `fetch` of the built URL returned an ok status and the body was read, and those bytes are the ones relayed. Any other outcome is a 500 `Image proxy failed`. A non-ok status gives details `TMDb image error: <status>`, and a failed fetch gives its message. |
| Relay.TmdbRejectsWithoutFetching | server.js:18-20 | Without `url` the answer is the 400 rejection, whatever the upstream would do. |
| Relay.ImageRejectsWithoutFetching | server.js:42 | Without `path` the answer is the 400 rejection, whatever the upstream would do. |
| UrlInjection.SmuggledQueryReplacesForwarded | server.js:25 | As written, take any caller query whose `url` has the form `path?<query>#`. The receiving server reads exactly the caller's query. The fetched URL carries the relay's serialized query, credential included, after the `#`, in the fragment. |
| UrlInjection.CallerControlsCredential | server.js:23-25 | As written, for any caller query with such a `url`, the credential the receiving server reads is whatever the caller smuggled: the caller's value, or none at all. |
| UrlInjection.CheckedMetadataRequest | server.js:15-25 | Corrected builder. It rejects exactly when `url` is missing or holds `?` or `#`, and otherwise it builds the same URL as the route. |
| UrlInjection.CheckedRequestSendsServerKey | server.js:22-28 | With the corrected builder, the receiving server reads exactly the forwarded list, so it sees `api_key` once and with the server's key. |

## Left out

- `fetch`, `response.json()`, `response.arrayBuffer()` and `Buffer.from` are network I/O. `fetch` is a function parameter returning a `Reply`, and reading the body is a `Body` that either holds a value or failed with a message.
- Setting `Content-Type` from the upstream headers (server.js:50) and `res.send`/`res.json` are left out, because they are framework calls with no logic of their own.
- The CORS middleware (server.js:8-13) is left out, because it sets constant headers.
- `dotenv`, the port choice and `app.listen` (server.js:5, server.js:58-61) are process startup. The key is the parameter `env` instead.
- Console logging (server.js:26, server.js:34, server.js:53) is left out as I/O. That includes line 26, which prints the full URL with the key.
- Express's query parsing is abstracted. The caller's query is a list of string pairs with distinct names. Array and object values, which `URLSearchParams` would stringify, are not modelled.
- The order of the caller's pairs is the object's property order, which the model takes as given.
- UrlView.HostOf: it reads the authority text up to the first `/`, `\`, `?` or `#`. It does not split off userinfo (`@`) or a port (`:`), and it does not lower-case or percent-decode the host. It does not model the host parser's other branches either: an empty host, which the parser rejects or skips past, an IPv4 address, including a last label of digits or `0x` hex, and domain-to-ASCII of `xn--` labels. The lemmas about hosts therefore require an `UrlView.IsDomainHost` host, which rules out all of these. Both fixed hosts satisfy it (`Requests.MetadataHostIsDomain`, `Requests.ImageHostIsDomain`). The predicate also rules out a host that ends in `.`, which the parser would accept.
- Utf8.Decode: strings are sequences of Unicode scalar values. A lone surrogate, which `URLSearchParams` would replace with U+FFFD, cannot occur, and strict decoding returns `None` instead of substituting.
- UrlView.QueryOf: the percent-encoding the URL parser applies to query characters is not modelled, and neither is the parser's failure on a URL without a scheme or with an empty host. On such input `QueryOf` still returns the text after `?`. The lemmas about the query (`UrlView.QueryOfAfterBase` and its callers) therefore require an `https://` base with a domain host, and query text free of those characters. A serialized query satisfies this (`FormUrlencoded.SerializedVisible`).
- Responses.ImageResponse: a non-ok image status becomes a 500 JSON error, as the code does. Passing the upstream status through with an empty body would be a different design, and the model follows the code.
- Responses.MetadataResponse: a body that fails to parse as JSON gives the same 500 `TMDb proxy failed` as a network failure, differing only in `details`. This follows the code; a distinct failure for a malformed body is not modelled.
- The wider application's ratings store and user-id generator are not in `server.js`, and they are not part of this model.

## Findings

| source | as written | input that shows it | evidently intended | confidence | as-written member | corrected member |
|---|---|---|---|---|---|---|
| server.js:25 | `url` is placed verbatim between the base and `?`, so a `?` or `#` inside it moves the query boundary | `/tmdb?url=%2Fmovie%2F550%3Fapi_key%3DCALLER%23` fetches `https://api.themoviedb.org/3/movie/550?api_key=CALLER#?api_key=<server key>`. The receiving server reads `api_key=CALLER`, and the server's key stays in the fragment, which is never sent | the receiving server always gets the server's `api_key`, once, with the caller's other pairs | not executed; high that the URL parses this way, medium that the authors meant `url` to be a path only | UrlInjection.SmuggledQueryReplacesForwarded | UrlInjection.CheckedRequestSendsServerKey |

The corrected builder is `UrlInjection.CheckedMetadataRequest`. It refuses a `url` holding
`?` or `#` with a 400 `Invalid parameter "url"`, and otherwise builds the same URL as the
route. `UrlInjection.CallerControlsCredential` states the same flaw as the as-written member,
in terms of the credential the receiving server reads.
