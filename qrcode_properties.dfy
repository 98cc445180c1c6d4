/** What the `GET /qrcode` handler promises, stated over the model in QrCode. */
module QrCodeProperties {
  import opened Wrappers
  import JsStrings
  import FormUrlEncoded
  import opened QrCode

  /**
   * Without content under `data` or `url` the answer is the 400 usage text,
   * whatever else the query holds and whatever the renderer would have done:
   * no URL is fetched.
   */
  lemma MissingContentRejected(q: Pairs, encode: string -> string, outcome: RemoteOutcome, other: RemoteOutcome)
    requires !HasContent(q)
    ensures Handle(q, encode, outcome) == Exchange(None, Response(400, TextHeaders, Text(UsageMessage)))
    ensures Handle(q, encode, outcome) == Handle(q, encode, other)
  {
  }

  /**
   * A non-empty `data` wins over `url`, which is read only when `data` is
   * absent or empty; the content is not trimmed, so any non-empty string,
   * blanks included, is sent as it is.
   */
  lemma ContentSelection(q: Pairs)
    ensures var data := FormUrlEncoded.Get(q, "data");
            Truthy(data) ==> ReadSettings(q).data == data
    ensures var url := FormUrlEncoded.Get(q, "url");
            !Truthy(FormUrlEncoded.Get(q, "data")) && Truthy(url) ==> ReadSettings(q).data == url
    ensures HasContent(q) ==> ReadSettings(q).data.value != ""
  {
  }

  /** The value of a parameter after `|| fallback`. */
  ghost predicate Defaulted(q: Pairs, name: string, fallback: string, v: string)
  {
    var given := FormUrlEncoded.Get(q, name);
    (Truthy(given) ==> v == given.value) && (!Truthy(given) ==> v == fallback)
  }

  /** Each optional parameter that is absent or empty takes its literal default; any other value passes unchanged. */
  lemma DefaultsApplied(q: Pairs)
    ensures var s := ReadSettings(q);
            && Defaulted(q, "size", "300", s.size)
            && Defaulted(q, "ecc", "M", s.ecc)
            && Defaulted(q, "color", "000000", s.color)
            && Defaulted(q, "bgcolor", "ffffff", s.bgcolor)
            && Defaulted(q, "margin", "1", s.margin)
            && Defaulted(q, "format", "png", s.format)
  {
  }

  /**
   * End to end: when there is content, the handler fetches the fixed
   * endpoint followed by a query from which the renderer reads back exactly
   * seven parameters in the order size, data, color, bgcolor, margin, ecc,
   * format — size as `NxN`, colors without their first '#', the format as
   * given (not lower-cased).
   */
  lemma RendererReceives(q: Pairs, encode: string -> string, decode: string -> string, outcome: RemoteOutcome)
    requires HasContent(q)
    requires FormUrlEncoded.KeepsSeparators(encode) && FormUrlEncoded.Undoes(decode, encode)
    ensures Handle(q, encode, outcome).fetched.Some?
    ensures var url := Handle(q, encode, outcome).fetched.value;
            var s := ReadSettings(q);
            && Endpoint <= url
            && FormUrlEncoded.Parse(decode, url[|Endpoint|..]) ==
                 [ ("size", s.size + "x" + s.size),
                   ("data", s.data.value),
                   ("color", JsStrings.RemoveFirst(s.color, '#')),
                   ("bgcolor", JsStrings.RemoveFirst(s.bgcolor, '#')),
                   ("margin", s.margin),
                   ("ecc", s.ecc),
                   ("format", s.format) ]
  {
    var s := ReadSettings(q);
    var query := FormUrlEncoded.Serialize(encode, OutgoingParams(s));
    assert Handle(q, encode, outcome).fetched.value == Endpoint + query;
    assert (Endpoint + query)[|Endpoint|..] == query;
    FormUrlEncoded.ParseSerialize(encode, decode, OutgoingParams(s));
  }

  /** The `NxN` size value determines N: different sizes are never sent alike. */
  lemma DimensionInjective(a: string, b: string)
    requires Dimension(a) == Dimension(b)
    ensures a == b
  {
    assert |a| == |b|;
    assert a == Dimension(a)[..|a|];
    assert b == Dimension(b)[..|b|];
  }

  /**
   * The content type depends only on the lower-cased format: jpg and jpeg
   * give image/jpeg, gif image/gif, svg image/svg+xml, anything else image/png.
   */
  lemma ContentTypeClassification(format: string)
    ensures var lower := JsStrings.ToLower(format);
            && (ContentTypeFor(format) == "image/jpeg" <==> lower == "jpg" || lower == "jpeg")
            && (ContentTypeFor(format) == "image/gif" <==> lower == "gif")
            && (ContentTypeFor(format) == "image/svg+xml" <==> lower == "svg")
            && (ContentTypeFor(format) == "image/png" <==> lower !in {"jpg", "jpeg", "gif", "svg"})
  {
  }

  /** Formats that differ only in the case of ASCII letters get the same content type. */
  lemma ContentTypeIgnoresCase(f: string, g: string)
    requires |f| == |g|
    requires forall i :: 0 <= i < |f| ==> JsStrings.LowerChar(f[i]) == JsStrings.LowerChar(g[i])
    ensures ContentTypeFor(f) == ContentTypeFor(g)
  {
    assert JsStrings.ToLower(f) == JsStrings.ToLower(g);
  }

  /** Classifying an already lower-cased format changes nothing. */
  lemma ContentTypeOfLowerCase(format: string)
    ensures ContentTypeFor(JsStrings.ToLower(format)) == ContentTypeFor(format)
  {
    JsStrings.ToLowerIdempotent(format);
  }

  /**
   * A renderer answer without `ok`, or any error thrown by the fetch or the
   * body read, gives 500 with a plain-text body: the fixed prefix followed
   * by the error's message, which for a non-ok answer is the handler's own.
   */
  lemma FailureResponses(q: Pairs, encode: string -> string, outcome: RemoteOutcome)
    requires HasContent(q) && !outcome.Delivered?
    ensures var r := Handle(q, encode, outcome).response;
            && r.status == 500
            && r.headers == [("Content-Type", "text/plain; charset=utf-8")]
            && r.body.Text?
            && FailurePrefix <= r.body.text
            && r.body.text[|FailurePrefix|..] == (if outcome.NotOk? then "二维码生成失败" else outcome.message)
  {
    var r := Handle(q, encode, outcome).response;
    assert r.body.text == FailurePrefix + r.body.text[|FailurePrefix|..];
  }

  /**
   * A delivered image gives 200 with the renderer's bytes unchanged and
   * exactly the content type, one-hour public caching and the three CORS
   * headers.
   */
  lemma SuccessResponse(q: Pairs, encode: string -> string, outcome: RemoteOutcome)
    requires HasContent(q) && outcome.Delivered?
    ensures Handle(q, encode, outcome).response ==
              Response(200,
                [ ("Content-Type", ContentTypeFor(ReadSettings(q).format)),
                  ("Cache-Control", "public, max-age=3600"),
                  ("Access-Control-Allow-Origin", "*"),
                  ("Access-Control-Allow-Methods", "GET"),
                  ("Access-Control-Allow-Headers", "Content-Type") ],
                Image(outcome.image))
  {
  }

  /**
   * Worked examples: an upper-case `SVG` is labelled SVG and `JPEG` JPEG,
   * an unsupported `bmp` falls back to PNG, and size 200 is sent as 200x200.
   */
  lemma FormatExamples()
    ensures ContentTypeFor("SVG") == "image/svg+xml"
    ensures ContentTypeFor("JPEG") == "image/jpeg"
    ensures ContentTypeFor("bmp") == "image/png"
    ensures Dimension("200") == "200x200"
  {
    LowerCaseOf("SVG", "svg");
    LowerCaseOf("JPEG", "jpeg");
    LowerCaseOf("bmp", "bmp");
  }

  /** The query `?data=https://example.com&format=SVG&size=200`, as decoded pairs. */
  const SvgQuery: Pairs := [("data", "https://example.com"), ("format", "SVG"), ("size", "200")]

  /** What `searchParams.get` reads from SvgQuery. */
  lemma SvgQueryReads()
    ensures FormUrlEncoded.Get(SvgQuery, "data") == Some("https://example.com")
    ensures FormUrlEncoded.Get(SvgQuery, "format") == Some("SVG")
    ensures FormUrlEncoded.Get(SvgQuery, "size") == Some("200")
    ensures HasContent(SvgQuery)
  {
    var q := SvgQuery;
    assert q[1..] == [("format", "SVG"), ("size", "200")];
    assert q[1..][1..] == [("size", "200")];
  }

  /** The size and format pairs the renderer reads back, for any query with content. */
  lemma SentSizeAndFormat(q: Pairs, encode: string -> string, decode: string -> string, outcome: RemoteOutcome)
    requires HasContent(q)
    requires FormUrlEncoded.KeepsSeparators(encode) && FormUrlEncoded.Undoes(decode, encode)
    ensures Handle(q, encode, outcome).fetched.Some?
    ensures var url := Handle(q, encode, outcome).fetched.value;
            var s := ReadSettings(q);
            && Endpoint <= url
            && var p := FormUrlEncoded.Parse(decode, url[|Endpoint|..]);
               && |p| == 7
               && p[0] == ("size", s.size + "x" + s.size)
               && p[6] == ("format", s.format)
  {
    RendererReceives(q, encode, decode, outcome);
  }

  /**
   * `?data=https://example.com&format=SVG&size=200` with a delivered image:
   * 200 labelled `image/svg+xml`, while the renderer reads back the size
   * as `200x200` and the format as written, `SVG`.
   */
  lemma SvgScenario(encode: string -> string, decode: string -> string, image: seq<byte>)
    requires FormUrlEncoded.KeepsSeparators(encode) && FormUrlEncoded.Undoes(decode, encode)
    ensures HasContent(SvgQuery)
    ensures var x := Handle(SvgQuery, encode, Delivered(image));
            && x.response.status == 200
            && x.response.headers[0] == ("Content-Type", "image/svg+xml")
            && x.response.body == Image(image)
            && x.fetched.Some?
            && Endpoint <= x.fetched.value
            && var p := FormUrlEncoded.Parse(decode, x.fetched.value[|Endpoint|..]);
               && |p| == 7
               && p[0] == ("size", "200x200")
               && p[6] == ("format", "SVG")
  {
    SvgQueryReads();
    var s := ReadSettings(SvgQuery);
    assert s.size == "200" && s.format == "SVG";
    SentSizeAndFormat(SvgQuery, encode, decode, Delivered(image));
    SuccessResponse(SvgQuery, encode, Delivered(image));
    FormatExamples();
  }

  /** `lower` is what lower-casing `s` gives, checked character by character. */
  lemma LowerCaseOf(s: string, lower: string)
    requires |s| == |lower|
    requires forall i :: 0 <= i < |s| ==> JsStrings.LowerChar(s[i]) == lower[i]
    ensures JsStrings.ToLower(s) == lower
  {
  }

  /** Blank content is not trimmed away: `?data=%20` is fetched, with a single blank as the data. */
  lemma BlankContentAccepted(encode: string -> string, outcome: RemoteOutcome)
    ensures var q := [("data", " ")];
            && Handle(q, encode, outcome).fetched.Some?
            && ReadSettings(q).data == Some(" ")
  {
    var q := [("data", " ")];
    assert FormUrlEncoded.Get(q, "data") == Some(" ");
  }
}
