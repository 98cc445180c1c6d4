/**
 * The `GET /qrcode` handler of functions/qrcode.js as one pure decision
 * from the incoming query and the outcome of the single call to the
 * remote renderer to the response. The remote call is not made here: its
 * outcome is an input, and the exchange records the URL that would be
 * fetched, or None when the handler answers before any fetch.
 */
module QrCode {
  import opened Wrappers
  import JsStrings
  import FormUrlEncoded

  type Pairs = FormUrlEncoded.Pairs

  newtype byte = x: int | 0 <= x < 256

  /** What awaiting `fetch(qrApiUrl)` and then `arrayBuffer()` came to. */
  datatype RemoteOutcome =
    | Delivered(image: seq<byte>)  // a response with `ok`, whose body was read in full
    | NotOk                        // a response without `ok` (a status outside 200-299)
    | Threw(message: string)       // `fetch` or `arrayBuffer` rejected; `message` is `err.message` as a string

  datatype Body = Text(text: string) | Image(bytes: seq<byte>)

  datatype Response = Response(status: int, headers: seq<(string, string)>, body: Body)

  /** The response, and the URL the handler fetched before producing it, if any. */
  datatype Exchange = Exchange(fetched: Option<string>, response: Response)

  /** The values bound by the `const` declarations at the top of the handler. */
  datatype Settings = Settings(
    data: Option<string>,
    size: string,
    ecc: string,
    color: string,
    bgcolor: string,
    margin: string,
    format: string)

  const Endpoint: string := "https://api.qrserver.com/v1/create-qr-code/?"
  const UsageMessage: string := "请提供要生成二维码的内容，例如：/qrcode?data=https://example.com"
  const FailurePrefix: string := "二维码生成失败："
  const NotOkMessage: string := "二维码生成失败"
  const TextHeaders: seq<(string, string)> := [("Content-Type", "text/plain; charset=utf-8")]

  /** JavaScript truthiness of a value that is null or a string. */
  predicate Truthy(v: Option<string>)
  {
    v.Some? && v.value != ""
  }

  /** `searchParams.get(name) || fallback`. */
  function ParamOr(q: Pairs, name: string, fallback: string): string
  {
    var v := FormUrlEncoded.Get(q, name);
    if Truthy(v) then v.value else fallback
  }

  /** The query carries content under `data` or, failing that, under `url`. */
  predicate HasContent(q: Pairs)
  {
    Truthy(FormUrlEncoded.Get(q, "data")) || Truthy(FormUrlEncoded.Get(q, "url"))
  }

  /** Reading the query: content from `data`, else `url`; literal defaults for the rest. */
  function ReadSettings(q: Pairs): (s: Settings)
    ensures Truthy(s.data) <==> HasContent(q)
    ensures Truthy(FormUrlEncoded.Get(q, "data")) ==> s.data == FormUrlEncoded.Get(q, "data")
    ensures !Truthy(FormUrlEncoded.Get(q, "data")) ==> s.data == FormUrlEncoded.Get(q, "url")
    ensures s.size != "" && s.ecc != "" && s.color != "" && s.bgcolor != "" && s.margin != "" && s.format != ""
  {
    var data := FormUrlEncoded.Get(q, "data");
    Settings(
      if Truthy(data) then data else FormUrlEncoded.Get(q, "url"),
      ParamOr(q, "size", "300"),
      ParamOr(q, "ecc", "M"),
      ParamOr(q, "color", "000000"),
      ParamOr(q, "bgcolor", "ffffff"),
      ParamOr(q, "margin", "1"),
      ParamOr(q, "format", "png"))
  }

  /** The `size` value sent to the renderer: `${size}x${size}`. */
  function Dimension(size: string): string
  {
    size + "x" + size
  }

  /** The outgoing parameters, in the order the renderer receives them. */
  function OutgoingParams(s: Settings): Pairs
    requires s.data.Some?
  {
    [ ("size", Dimension(s.size)),
      ("data", s.data.value),
      ("color", JsStrings.RemoveFirst(s.color, '#')),
      ("bgcolor", JsStrings.RemoveFirst(s.bgcolor, '#')),
      ("margin", s.margin),
      ("ecc", s.ecc),
      ("format", s.format) ]
  }

  /** `qrApiUrl`: the fixed endpoint followed by the serialized parameters. */
  function ApiUrl(encode: string -> string, s: Settings): string
    requires s.data.Some?
  {
    Endpoint + FormUrlEncoded.Serialize(encode, OutgoingParams(s))
  }

  /** The `switch` on the lower-cased format; anything unrecognised is PNG. */
  function ContentTypeFor(format: string): (r: string)
    ensures r in {"image/png", "image/jpeg", "image/gif", "image/svg+xml"}
  {
    match JsStrings.ToLower(format)
    case "jpg" => "image/jpeg"
    case "jpeg" => "image/jpeg"
    case "gif" => "image/gif"
    case "svg" => "image/svg+xml"
    case _ => "image/png"
  }

  /** The headers of a successful response. */
  function ImageHeaders(contentType: string): seq<(string, string)>
  {
    [ ("Content-Type", contentType),
      ("Cache-Control", "public, max-age=3600"),
      ("Access-Control-Allow-Origin", "*"),
      ("Access-Control-Allow-Methods", "GET"),
      ("Access-Control-Allow-Headers", "Content-Type") ]
  }

  /** The response built in the `catch` block from the caught error's message. */
  function FailureResponse(message: string): Response
  {
    Response(500, TextHeaders, Text(FailurePrefix + message))
  }

  /**
   * `onRequestGet`: answer 400 without fetching when there is no content;
   * otherwise fetch the renderer's URL and answer 200 with its bytes, or
   * 500 when the fetch failed in any way.
   */
  function Handle(q: Pairs, encode: string -> string, outcome: RemoteOutcome): (x: Exchange)
    ensures x.fetched.None? <==> !HasContent(q)
    ensures x.response.status == 400 <==> !HasContent(q)
    ensures x.response.status == 200 <==> HasContent(q) && outcome.Delivered?
    ensures x.response.status == 500 <==> HasContent(q) && !outcome.Delivered?
    ensures x.response.body.Image? <==> x.response.status == 200
  {
    var s := ReadSettings(q);
    if !Truthy(s.data) then
      Exchange(None, Response(400, TextHeaders, Text(UsageMessage)))
    else
      var response :=
        match outcome
        case NotOk => FailureResponse(NotOkMessage)
        case Threw(message) => FailureResponse(message)
        case Delivered(image) => Response(200, ImageHeaders(ContentTypeFor(s.format)), Image(image));
      Exchange(Some(ApiUrl(encode, s)), response)
  }
}
