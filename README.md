# mdpimg in Dafny

A model of `mdpimg.go`, a small Go library that turns an mdpr.jp article URL into the ordered list of
full-size image URLs of that article's gallery. The pipeline has three stages:

1. `URLCheck` trims the input. It accepts the input only if it holds `https://mdpr.jp/` and does not
   hold `photo/detail`.
2. `GetImgURL` takes the article id, which is the last `/`-separated piece of the URL. It fetches the
   mobile article page with the web header set. Then it walks the `data-mdprapp-option` attribute of
   every anchor of the article body, in document order. Each attribute is percent-decoded and
   JSON-decoded. The first descriptor whose `url` contains the article id gives the API URL
   `https://app2-mdpr.freetls.fastly.net` + `url`.
3. `GetImgs` fetches that API URL with the API header set. It decodes the JSON body and returns the
   `url` of every element of `list`, in order.

`Get` runs the three stages in sequence. The first failure ends the call.

Files:

- `outcomes.dfy` (module `Outcomes`) holds the shared result types:
  - `Result` is what a library call gives back.
  - `Error` covers the Go `error` values the core returns.
  - `Fault` names the panics raised by the unchecked type assertions.
  - `Outcome` is value, error or panic. It supports `:-`, which plays the part of Go's
    `if err != nil { return ..., err }`.
- `strings.dfy` (module `Strings`) models the three functions of Go's `strings` package the core uses:
  `TrimSpace`, `Contains` and `Split`.
- `json.dfy` (module `Json`) holds the JSON values as Go decodes them into `interface{}`, and the typing
  step of decoding into `map[string]interface{}`. An object fills the map. `null` leaves the map nil,
  which reads as empty. Anything else is a type error.
- `mdpimg.dfy` (module `Mdpimg`) is the core. Each of `GetImgURL`, `GetImgs` and `Get` is a method whose
  contract ties its result to a specification function (`Resolve`, `ListImages`, `Pipeline`). The
  lemmas state what those functions promise.

The collaborators the core calls but does not implement are the fields of `Env`, each a function:

- `fetch` maps a URL and header profile to a body or an error.
- `findAnchors` stands for HTML parsing, the XPath query and attribute selection. It maps a body to the
  attribute strings in document order, or an error.
- `unescape` stands for `url.QueryUnescape`.
- `parseJson` stands for the JSON syntax step of `json.Unmarshal`.

"Get performs no request" is stated as independence: the outcome is the same for every `Env`. "The
request goes to this URL" is stated the same way: two transports that agree on that one request give
the same outcome.

Some behaviours of the code are easy to miss, and the model keeps them as written:

- The article id is the last piece of the URL, empty after a trailing `/`. It is not the last non-empty
  piece.
- A missing or wrongly typed JSON field is a panic (`Outcome.Panic`), not a returned error.
- No HTTP status code is checked.
- A JSON `null` payload reaches a type assertion on a nil map and panics.

## Model

| member | source | states |
|---|---|---|
| `Strings.TrimSpace` | mdpimg.go:57 | the result is a slice `s[start:stop]` of the input; everything before `start` and from `stop` on is white space, and the result has no white space at either end |
| `Strings.TrimSpaceIdempotent` | mdpimg.go:57 | trimming an already trimmed string changes nothing |
| `Strings.Contains` | mdpimg.go:58-59 | `Contains(s, sub)` is true exactly when `sub` occurs in `s` at some index |
| `Strings.TrimSpaceKeepsSubstring` | mdpimg.go:57-59 | a non-empty string free of white space occurs in the trimmed input exactly when it occurs in the raw input |
| `Strings.Split` | mdpimg.go:51 | `strings.Split` on `/` gives at least one piece, no piece holds `/`, and joining the pieces with `/` gives back the input |
| `Strings.SplitJoin` | mdpimg.go:51 | the other direction of the round trip: pieces free of `/` come back unchanged from splitting their join |
| `Mdpimg.URLCheck` | mdpimg.go:56-65 | accepts exactly when the trimmed input contains the site marker and not the photo-detail marker; an accepted input is returned trimmed, a rejected one as `""` |
| `Mdpimg.URLCheckIdempotent` | mdpimg.go:57-62 | checking an accepted URL again accepts it and returns it unchanged |
| `Mdpimg.URLCheckVerdict` | mdpimg.go:57-64 | the verdict on the raw input is the same: accept exactly when it contains `https://mdpr.jp/` and not `photo/detail`; `photo/detail` rejects even when the domain is present |
| `Mdpimg.ArticleID` | mdpimg.go:50-54 | the id contains no `/`, is a suffix of the URL, and is either the whole URL or preceded by `/` (the longest `/`-free suffix) |
| `Mdpimg.ArticleIDAfterLastSlash` | mdpimg.go:51-52 | the id of `prefix + "/" + x`, with `x` free of `/`, is `x`: the id depends only on the final segment |
| `Mdpimg.ArticleIDEdgeCases` | mdpimg.go:51-52 | a URL without `/` is its own id; a URL ending in `/` has the empty id |
| `Mdpimg.ArticleIDExample` | mdpimg.go:50-54 | the id of `https://mdpr.jp/news/detail/12345` is `12345` |
| `Strings.TrimSpacePadded` | mdpimg.go:57 | trimming a string with no white space at its ends, surrounded by white space, gives back exactly that string |
| `Mdpimg.URLCheckAcceptsPadded` | mdpimg.go:56-65 | a URL that starts with `https://mdpr.jp/`, has no `o` (so no `photo/detail`) and no trailing white space is accepted when pasted between a space and a line feed, and comes back trimmed |
| `Mdpimg.URLCheckAcceptsArticle` | mdpimg.go:50-65 | for every numeric id, ` https://mdpr.jp/news/detail/<id>\n` is accepted as `https://mdpr.jp/news/detail/<id>`, and the article id of that URL is `<id>` |
| `Mdpimg.URLCheckPhotoExample` | mdpimg.go:56-61 | `https://mdpr.jp/photo/detail/12345` is rejected with `""` |
| `Json.Unmarshal` | mdpimg.go:90-93 | decoding into a map succeeds exactly on a JSON object, whose members fill the map, or on `null`, which leaves the map nil (empty); a syntax error is passed on with its message, and any other well-formed value is a type error; it never panics |
| `Mdpimg.DecodeAnchor` | mdpimg.go:84-94 | a failed percent-decode is returned as that error; after a successful one, an error happens exactly when JSON decoding fails, and is that error; the result is a url exactly when the decoded map has a string `url`, and it is that string; the only panic is the `url` assertion |
| `Mdpimg.NullDescriptorPanics` | mdpimg.go:90-94 | a descriptor that decodes to JSON `null` panics at the `url` assertion instead of returning an error |
| `Mdpimg.SelectEndpoint` | mdpimg.go:83-100 | a returned endpoint is the API prefix followed by a url that contains the article id; an error is "url not found" or a decode error; a panic is the `url` assertion |
| `Mdpimg.SelectSkipsPrefix` | mdpimg.go:83-98 | anchors that decode to a url not naming the article do not change where the scan ends |
| `Mdpimg.SelectChoosesFirstMatch` | mdpimg.go:94-97 | the first anchor, in document order, whose decoded url contains the id gives the result `apiPrefix + url` |
| `Mdpimg.SelectStopsAtFailure` | mdpimg.go:86-93 | a decode failure or panic on an anchor reached before any match ends the call with that failure |
| `Mdpimg.SelectNotFound` | mdpimg.go:95-100 | "url not found" exactly when every anchor decodes and none of their urls contains the id, which includes the case of no anchors |
| `Mdpimg.SelectOkFromFirstMatch` | mdpimg.go:83-98 | a successful scan result comes from the first matching anchor, never from a later match |
| `Mdpimg.SelectIgnoresLaterAnchors` | mdpimg.go:83-98 | once the scan stops on a match or a failure, appending more anchors changes nothing |
| `Mdpimg.EmptyIdTakesFirstAnchor` | mdpimg.go:95-97 | with an empty article id, the first anchor that decodes is chosen |
| `Mdpimg.SelectSameDecoders` | mdpimg.go:83-99 | the scan depends only on the two decoders, never on the transport |
| `Mdpimg.Resolve` | mdpimg.go:67-101 | a resolved endpoint starts with the API prefix and its remainder contains the URL's article id; the only panic is the `url` assertion |
| `Mdpimg.ResolveFetchesOnlyMobilePage` | mdpimg.go:68-73 | the only request sent goes to `mobilePrefix + aid` with the web headers: two transports that agree on it give the same result |
| `Mdpimg.GetImgURL` | mdpimg.go:67-101 | the anchor loop with early return computes exactly `Resolve` |
| `Mdpimg.ItemUrl` | mdpimg.go:116-117 | an element yields its url exactly when it is an object with a string `url`; otherwise the panic of the assertion that fails, tagged with the element's index |
| `Mdpimg.ImageList` | mdpimg.go:114-119 | the extraction never returns an error, and a successful result has as many urls as `list` has elements |
| `Mdpimg.ImageListOk` | mdpimg.go:114-119 | the extraction succeeds exactly when every element is an object with a string url; element `i` of the result is the url of element `i` (order kept, no dedup; an empty list gives an empty result) |
| `Mdpimg.ImageListPrefixFailure` | mdpimg.go:115-118 | a panic on a prefix of `list` is the panic of the whole call |
| `Mdpimg.ImageListFirstFault` | mdpimg.go:115-118 | the first malformed element decides the panic, whatever follows it |
| `Mdpimg.ListImages` | mdpimg.go:103-120 | the only panics are a `list` that is not an array and a malformed element |
| `Mdpimg.NullListPanics` | mdpimg.go:109-113 | an API body that decodes to JSON `null` panics at the `list` assertion instead of returning an error |
| `Mdpimg.ListImagesFetchesOnlyApi` | mdpimg.go:104 | the only request sent goes to the given URL with the API headers |
| `Mdpimg.GetImgs` | mdpimg.go:103-120 | the append loop computes exactly `ListImages` |
| `Mdpimg.PipelineRejects` | mdpimg.go:124-136 | an input without `https://mdpr.jp/`, or with `photo/detail`, fails with "url is error" for every transport, so no request is needed |
| `Mdpimg.PipelineFetches` | mdpimg.go:122-137 | the outcome depends on the transport only through two requests: the mobile page of the trimmed URL's id, and then the resolved API URL |
| `Mdpimg.Get` | mdpimg.go:122-137 | the sequence validate, resolve, list computes exactly `Pipeline`, where the first failure is returned unchanged |

## Left out

- HTTP transport (`fetch`, mdpimg.go:31-48) is not modelled. This covers request construction, the
  30-second timeout, reading the body and closing it. It is the `Env.fetch` parameter, and what it
  answers is unconstrained. The source checks no status code, and neither does the model.
- The header values of `webHeader` and `apiHeader` (mdpimg.go:17-29) are constant data. Only which of
  the two sets a request carries is modelled (`Profile`).
- HTML parsing and the XPath query (htmlquery, mdpimg.go:78-85) are not modelled. They are the
  `Env.findAnchors` parameter.
- `url.QueryUnescape` and the JSON grammar are not modelled. They are the `Env.unescape` and
  `Env.parseJson` parameters. Only how a decoded value is typed into `map[string]interface{}` is
  modelled.
- Strings are sequences of characters, not UTF-8 bytes. `TrimSpace` on invalid UTF-8 is not modelled.
- Strings.Split: modelled only for a one-character separator, which is the only kind the core uses.
- JSON numbers are kept as reals. float64 rounding is irrelevant to the core and not modelled.
- A JSON number too large for float64 (such as `1e400`) makes Go's `json.Unmarshal` return a type
  error although the text is well formed. The model cannot tell that case apart: the number check is
  part of the `Env.parseJson` parameter, so it can only surface as a `JsonSyntaxError`.
- A panic is an outcome (`Outcome.Panic`) that every caller passes on. Process termination and
  `recover` are not modelled.
- A nil slice and an empty slice are the same empty sequence here.
- The ordering of `defer res.Body.Close()` after `ReadAll` is not modelled. It is a resource-release
  concern.
