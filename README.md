# QR-code endpoint handler, modelled in Dafny

This project models `onRequestGet` in `functions/qrcode.js`, the handler behind `GET /qrcode`. It reads the
content to encode from `data`, or from `url` when `data` is missing or empty. It gives the six optional
parameters (size, ecc, color, bgcolor, margin, format) literal defaults. It builds the query for the remote
renderer at `https://api.qrserver.com/v1/create-qr-code/` and fetches it once. It answers in one of three ways:

- 400 with a usage text when there is no content;
- 200 with the renderer's bytes, the content type chosen from the format, and cache and CORS headers;
- 500 with a plain-text message when the renderer's answer is not `ok` or anything throws.

The handler is pure apart from that one fetch, so the model is a set of functions and lemmas. The fetch
is not performed. Its outcome is an input (`QrCode.RemoteOutcome`): an image was delivered, the answer
was not `ok`, or an error with a message was thrown. The result (`QrCode.Exchange`) holds the response
and the URL that was fetched, or `None` when the handler answered before fetching.

Modules:

- `Wrappers`: `Option`, standing for JavaScript's `null`-or-value.
- `JsStrings`: the JavaScript string operations the handler uses.
  - `String.prototype.replace` with a one-character pattern, which removes only the first occurrence.
  - `toLowerCase`.
  - `indexOf`, used to state the other two.
- `FormUrlEncoded`: the `URLSearchParams` behaviour the handler depends on.
  - `get` returns the first value under a name.
  - `toString` is the application/x-www-form-urlencoded serializer of section 5.2 of the WHATWG URL
    Standard.
  - Percent-encoding is a function parameter. The model states how the encoded names and values are
    joined with `=` and `&`.
  - The parser of section 5.1 is also modelled. With it, the model states what the renderer reads back
    from the query, assuming the renderer parses by that algorithm.
- `QrCode`: the handler itself.
- `QrCodeProperties`: the properties the handler promises, stated as lemmas.

How the handler treats its parameters and its provider, all kept in the model:

- it calls one provider and has no fallback;
- it reads no caption or label parameter;
- it never parses size or margin as numbers; they pass through as strings;
- it does not canonicalise ecc or format;
- it removes the first `#` of a color wherever it is, not only a leading one;
- it does not reject an unknown format: the format is sent to the renderer as written and the image is labelled `image/png`.

## Model

| member | source | states |
|---|---|---|
| `FormUrlEncoded.Get` | functions/qrcode.js:6-12 | `searchParams.get` is None exactly when no pair has the name. Otherwise it returns the value of the first pair with that name. |
| `QrCode.ReadSettings` | functions/qrcode.js:6-12 | The content is present (non-empty) exactly when `data` or `url` is. A non-empty `data` is taken as it is. Otherwise the content is whatever `url` holds. Every other setting is non-empty. |
| `QrCodeProperties.ContentSelection` | functions/qrcode.js:6-14 | A non-empty `data` wins over `url`. `url` is used only when `data` is absent or empty. Accepted content is non-empty and is not trimmed. |
| `QrCodeProperties.DefaultsApplied` | functions/qrcode.js:7-12 | Each optional parameter that is absent or empty takes its literal default: size 300, ecc M, color 000000, bgcolor ffffff, margin 1, format png. Any non-empty value passes through unchanged. |
| `QrCodeProperties.MissingContentRejected` | functions/qrcode.js:14-19 | Without content, the exchange is the 400 usage text with `text/plain; charset=utf-8` and no fetch. It is the same whatever the remote outcome would have been. |
| `QrCodeProperties.BlankContentAccepted` | functions/qrcode.js:14 | `data` made of a single blank is accepted and fetched as it is. |
| `JsStrings.RemoveFirst` | functions/qrcode.js:26-27 | The color normalisation removes the first `#`, wherever it is, and nothing else. A string without `#` is unchanged. A string with `#` shrinks by one, and its multiset of characters loses exactly one `#`. |
| `QrCodeProperties.DimensionInjective` | functions/qrcode.js:24 | The `NxN` size value determines N, so two different sizes are never sent the same way. |
| `FormUrlEncoded.ParseSerialize` | functions/qrcode.js:23-33 | Parsing the serialised query gives back exactly the pairs, in order. This holds whenever the percent-encoding hides `&` and `=` and the decoding undoes it. |
| `FormUrlEncoded.SerializeInjective` | functions/qrcode.js:23-33 | Different pair lists never serialise to the same query. |
| `QrCodeProperties.RendererReceives` | functions/qrcode.js:23-36 | With content, the fetched URL is the fixed endpoint followed by a query. The renderer reads back seven parameters in the order size, data, color, bgcolor, margin, ecc, format. Size is `N` + `x` + `N`. Colors lose their first `#`. The format is sent as given, not lower-cased. |
| `QrCode.ContentTypeFor` | functions/qrcode.js:43-57 | The mapping is total. The result is always one of the four image content types. |
| `QrCodeProperties.ContentTypeClassification` | functions/qrcode.js:43-57 | Each content type holds if and only if the lower-cased format is in its class. `jpg` and `jpeg` give `image/jpeg`. `gif` gives `image/gif`. `svg` gives `image/svg+xml`. Every other value gives `image/png`. |
| `JsStrings.ToLower` | functions/qrcode.js:44 | Lower-casing keeps the length, lowers each letter in place, and leaves no upper-case letter behind. |
| `JsStrings.ToLowerIdempotent` | functions/qrcode.js:44 | Lower-casing twice is the same as lower-casing once. |
| `QrCodeProperties.ContentTypeIgnoresCase` | functions/qrcode.js:44 | Two formats that differ only in letter case get the same content type. |
| `QrCodeProperties.ContentTypeOfLowerCase` | functions/qrcode.js:44 | Lower-casing the format first does not change its content type. |
| `QrCodeProperties.SvgScenario` | functions/qrcode.js:6-69 | For `?data=https://example.com&format=SVG&size=200` with a delivered image, the query has content and the answer is 200 with `Content-Type: image/svg+xml` and the delivered bytes. The renderer reads back seven parameters, the first `("size", "200x200")` and the last `("format", "SVG")`, as written. |
| `QrCodeProperties.SentSizeAndFormat` | functions/qrcode.js:23-33 | For any query with content, the renderer reads back seven parameters. The first is size as `N` + `x` + `N` and the last is the raw format. |
| `QrCodeProperties.FormatExamples` | functions/qrcode.js:43-57 | Upper-case `SVG` is labelled `image/svg+xml` and `JPEG` is labelled `image/jpeg`. The unsupported `bmp` falls back to `image/png`. Size `200` is sent as `200x200`. |
| `QrCode.Handle` | functions/qrcode.js:14-75 | There is no fetch exactly when there is no content, and the status is then 400. The status is 200 exactly when there is content and an image was delivered, and only then is the body an image. The status is 500 exactly when there is content and the remote call failed. |
| `QrCodeProperties.FailureResponses` | functions/qrcode.js:38-75 | A non-ok answer or a thrown error gives 500 with a `text/plain; charset=utf-8` body. The body is `二维码生成失败：` followed by the error's message. For a non-ok answer that message is the handler's own `二维码生成失败`. |
| `QrCodeProperties.SuccessResponse` | functions/qrcode.js:59-69 | A delivered image gives 200 with the remote bytes unchanged. The headers are exactly: Content-Type from the mapping, `Cache-Control: public, max-age=3600` (section 5.2.2 of RFC 9111), `Access-Control-Allow-Origin: *`, `Access-Control-Allow-Methods: GET` and `Access-Control-Allow-Headers: Content-Type`. |

## Left out

- The `fetch` and `arrayBuffer` calls and the `async`/`await` plumbing are network I/O. Their combined outcome is an input value.
- `new URL(request.url)` is not modelled. The incoming query is given as its list of decoded name/value pairs, in order.
- The percent-encoding and percent-decoding of single names and values inside `URLSearchParams` are function parameters. The round-trip lemmas assume what the real encoding guarantees: `&` and `=` never appear in its output, and decoding undoes it.
- JsStrings.ToLower: lowers only the ASCII letters A to Z, while JavaScript's `toLowerCase` also maps other letters. This does not change `QrCode.ContentTypeFor`. Apart from ASCII capitals, the only character that lower-cases to a single ASCII letter is the Kelvin sign (to `k`), and no `k` appears in `jpg`, `jpeg`, `gif` or `svg`. That argument is not proved in Dafny.
- `QrCode.RemoteOutcome.Threw` carries `err.message` already turned into a string. What that string is for thrown values that are not `Error` objects is left to the platform.
- JavaScript strings may hold lone surrogates. Dafny characters are Unicode scalar values, so such strings are not represented.
- Response headers are an ordered list in the order of the object literal at functions/qrcode.js:62-68. A JavaScript `Headers` object compares names case-insensitively and iterates them sorted. Neither the case-insensitivity of header names nor that iteration order is modelled.
- The remote service at api.qrserver.com is assumed to decode the query as the application/x-www-form-urlencoded parser of section 5.1 of the WHATWG URL Standard does. `FormUrlEncoded.Parse` models that parser. How the service really parses its query is not known, so "the renderer reads back" in the lemmas means the standard parser's reading.
- Response fields other than status, headers and body (status text, for example) are not modelled.
- `server.js` is not part of this model. It is an Express bootstrap around an external QR library's `toDataURL` and a base64 decode.
