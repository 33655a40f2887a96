/** The request checks at the top of the two ingestion handlers in server.js:
    `POST /download/url` needs `url` and `filename`, `POST /download/torrent`
    needs `magnetLink`. A field counts as present when it is truthy in
    JavaScript's sense; a request that fails the check is answered 400 before
    any network or disk work starts. */
module DownloadRoutes {
  import opened JsNumbers

  /** A value that a field of a parsed JSON request body can hold, or
      `undefined` for a field the body does not have. Objects and arrays are
      kept as one case, since only their truthiness matters here. */
  datatype JsValue = Undefined | Null | Bool(b: bool) | Num(n: JsNumber) | Str(s: string) | Composite

  /** JavaScript's ToBoolean, i.e. what `!value` negates. */
  predicate Truthy(v: JsValue) {
    match v
    case Undefined => false
    case Null => false
    case Bool(b) => b
    case Num(n) => n.Int? && n.value != 0
    case Str(s) => s != ""
    case Composite => true
  }

  /** The JavaScript values that are falsy, listed one by one. */
  const FalsyValues: set<JsValue> := {Undefined, Null, Bool(false), Num(NaN), Num(Int(0)), Str("")}

  /** `Truthy` agrees with the list of falsy values. */
  lemma TruthyUnlessListedFalsy(v: JsValue)
    ensures !Truthy(v) <==> v in FalsyValues
  {
    match v
    case Bool(b) =>
      if !b { assert v == Bool(false); }
    case Num(n) =>
      if n.NaN? { assert v == Num(NaN); }
      else if n.value == 0 { assert v == Num(Int(0)); }
    case Str(s) =>
      if s == "" { assert v == Str(""); }
    case _ =>
  }

  /** A parsed request body: its fields by name. */
  type Body = map<string, JsValue>

  /** `req.body.key`: the field's value, `undefined` when it is missing. */
  function Field(body: Body, key: string): JsValue {
    if key in body then body[key] else Undefined
  }

  /** Either the 400 reply, or the go-ahead with the values the handler goes
      on to use. */
  datatype Admission<T> = Reject(status: nat, message: string) | Proceed(args: T)

  /** `if (!url || !filename) return res.status(400).send(...)`. */
  function CheckUrlRequest(body: Body): (r: Admission<(JsValue, JsValue)>)
    ensures r.Reject? <==> !Truthy(Field(body, "url")) || !Truthy(Field(body, "filename"))
    ensures r.Reject? ==> r.status == 400 && r.message == "URL and filename are required"
    ensures r.Proceed? ==> r.args == (Field(body, "url"), Field(body, "filename"))
  {
    var url := Field(body, "url");
    var filename := Field(body, "filename");
    if !Truthy(url) || !Truthy(filename) then Reject(400, "URL and filename are required")
    else Proceed((url, filename))
  }

  /** `if (!magnetLink) return res.status(400).send(...)`. */
  function CheckTorrentRequest(body: Body): (r: Admission<JsValue>)
    ensures r.Reject? <==> !Truthy(Field(body, "magnetLink"))
    ensures r.Reject? ==> r.status == 400 && r.message == "Magnet link is required"
    ensures r.Proceed? ==> r.args == Field(body, "magnetLink")
  {
    var magnetLink := Field(body, "magnetLink");
    if !Truthy(magnetLink) then Reject(400, "Magnet link is required")
    else Proceed(magnetLink)
  }

  /** A URL request without `url` or without `filename`, or with either one
      falsy (empty text, null, 0, false, ...), is refused with 400. */
  lemma UrlRequestNeedsBothFields(body: Body)
    requires Field(body, "url") in FalsyValues || Field(body, "filename") in FalsyValues
    ensures CheckUrlRequest(body) == Reject(400, "URL and filename are required")
  {
    TruthyUnlessListedFalsy(Field(body, "url"));
    TruthyUnlessListedFalsy(Field(body, "filename"));
  }

  /** A URL request with both fields non-empty texts goes ahead with exactly
      those two texts. */
  lemma UrlRequestWithBothFields(body: Body, url: string, filename: string)
    requires url != "" && filename != ""
    requires "url" in body && body["url"] == Str(url)
    requires "filename" in body && body["filename"] == Str(filename)
    ensures CheckUrlRequest(body) == Proceed((Str(url), Str(filename)))
  {
  }

  /** A torrent request without a truthy `magnetLink` is refused with 400. */
  lemma TorrentRequestNeedsMagnetLink(body: Body)
    requires Field(body, "magnetLink") in FalsyValues
    ensures CheckTorrentRequest(body) == Reject(400, "Magnet link is required")
  {
    TruthyUnlessListedFalsy(Field(body, "magnetLink"));
  }

  /** A torrent request with a non-empty `magnetLink` text goes ahead with it. */
  lemma TorrentRequestWithMagnetLink(body: Body, link: string)
    requires link != ""
    requires "magnetLink" in body && body["magnetLink"] == Str(link)
    ensures CheckTorrentRequest(body) == Proceed(Str(link))
  {
  }

  /** A field missing from the body reads as `undefined`, which is falsy, so
      each endpoint refuses a body that lacks one of its fields. */
  lemma MissingFieldsRejected(body: Body)
    ensures "url" !in body || "filename" !in body ==>
      CheckUrlRequest(body) == Reject(400, "URL and filename are required")
    ensures "magnetLink" !in body ==>
      CheckTorrentRequest(body) == Reject(400, "Magnet link is required")
  {
  }
}
