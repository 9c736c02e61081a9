/** The decision part of the notification script: whether a notification
    goes out at all, the caption it carries, the image address it points
    to, and the multipart request `send_webhook` describes. The POST itself
    and its answer are outside the model. */
module Notify {
  import opened Wrappers
  import opened Arguments
  import opened Templates

  const WEBHOOK_URL: string := "http://you_ip:3000/send/image"
  const PHONE: string := "you_id@s.whatsapp.net"
  const TOKEN: string := "Basic SUA CREDENCIAL"

  const AUTHORIZATION: string := "Authorization"
  const IMAGE_SUFFIX: string := ".png"

  /** One multipart field: no file name, only content. */
  datatype Part = Part(filename: Option<string>, content: string)

  /** What the script hands to the HTTP library: address, headers and the
      multipart fields. */
  datatype Request = Request(url: string, headers: map<string, string>, files: map<string, Part>)

  /** Why the script stops before sending. */
  datatype Skip = MissingPoster | UnsupportedMediaType(mediaType: Value)

  /** What the script settled on once both gates are passed. */
  datatype Plan = Plan(caption: string, imageUrl: string, auth: bool)

  datatype Outcome = NotSent(reason: Skip) | Sent(request: Request)

  /** The attributes the main block reads; every parsed namespace has them. */
  predicate HasGateKeys(args: map<string, Value>) {
    "poster" in args && "media_type" in args && "auth" in args
  }

  /** `media_type in TEMPLATES`: only a string can equal a key. */
  predicate Supported(mediaType: Value) {
    mediaType.Str? && mediaType.s in TEMPLATES
  }

  lemma SupportedExactly(mediaType: Value)
    ensures Supported(mediaType) <==>
      mediaType in {Str("movie"), Str("episode"), Str("show"), Str("season")}
  {
    TemplateKeys();
  }

  /** The poster address handed to the API: `.png` appended, always. */
  function ImageUrl(poster: Value): (r: string)
    ensures |r| == |Text(poster)| + |IMAGE_SUFFIX|
    ensures r[..|Text(poster)|] == Text(poster)
    ensures r[|Text(poster)|..] == IMAGE_SUFFIX
  {
    Text(poster) + IMAGE_SUFFIX
  }

  /** An address that already ends in `.png` gets a second one. */
  lemma ImageUrlAlreadyPng()
    ensures ImageUrl(Str("p.png")) == "p.png.png"
  {
  }

  /** The main block from the poster check to the call of `send_webhook`:
      the poster gate first, then the media-type gate, then the caption
      rendered with `format_map` over the namespace (a missing attribute
      reads as empty) and the image address. */
  function Decide(args: map<string, Value>): (r: Result<Plan, Skip>)
    requires HasGateKeys(args)
    ensures r.Failure? <==> !Truthy(args["poster"]) || !Supported(args["media_type"])
    ensures !Truthy(args["poster"]) ==> r == Failure(MissingPoster)
    ensures Truthy(args["poster"]) && !Supported(args["media_type"]) ==>
      r == Failure(UnsupportedMediaType(args["media_type"]))
    ensures r.Success? ==>
      && r.value.caption == Render(TEMPLATES[args["media_type"].s], args)
      && r.value.imageUrl == Text(args["poster"]) + IMAGE_SUFFIX
      && r.value.auth == Truthy(args["auth"])
  {
    var poster := args["poster"];
    var mediaType := args["media_type"];
    if !Truthy(poster) then Failure(MissingPoster)
    else if !Supported(mediaType) then Failure(UnsupportedMediaType(mediaType))
    else
      var template := TEMPLATES[mediaType.s];
      FormatSource(template, args);
      Success(Plan(FormatMap(Source(template), args).value, ImageUrl(poster), Truthy(args["auth"])))
  }

  /** The headers `send_webhook` sends: only the configured token, and only
      when authorization is on. */
  function Headers(authEnabled: bool): (h: map<string, string>)
    ensures AUTHORIZATION in h <==> authEnabled
    ensures h.Keys <= {AUTHORIZATION}
    ensures authEnabled ==> h[AUTHORIZATION] == TOKEN
  {
    if authEnabled then map[AUTHORIZATION := TOKEN] else map[]
  }

  /** The four multipart fields, none with a file name. */
  function Payload(bodyText: string, posterUrl: string): (p: map<string, Part>)
    ensures p.Keys == {"phone", "image_url", "caption", "compress"}
    ensures forall k :: k in p ==> p[k].filename.None?
    ensures p["phone"].content == PHONE && p["compress"].content == "true"
    ensures p["image_url"].content == posterUrl && p["caption"].content == bodyText
  {
    map[
      "phone" := Part(None, PHONE),
      "image_url" := Part(None, posterUrl),
      "caption" := Part(None, bodyText),
      "compress" := Part(None, "true")
    ]
  }

  /** `send_webhook` up to the POST: the header map starts empty and gains
      the configured token only when authorization is on; the payload has
      four fields, none with a file name. */
  method SendWebhook(bodyText: string, posterUrl: string, authEnabled: bool) returns (req: Request)
    ensures req.url == WEBHOOK_URL
    ensures AUTHORIZATION in req.headers <==> authEnabled
    ensures authEnabled ==> req.headers[AUTHORIZATION] == TOKEN
    ensures req.headers.Keys <= {AUTHORIZATION}
    ensures req.files.Keys == {"phone", "image_url", "caption", "compress"}
    ensures req.files["phone"] == Part(None, PHONE)
    ensures req.files["image_url"] == Part(None, posterUrl)
    ensures req.files["caption"] == Part(None, bodyText)
    ensures req.files["compress"] == Part(None, "true")
    ensures req == Request(WEBHOOK_URL, Headers(authEnabled), Payload(bodyText, posterUrl))
  {
    var headers: map<string, string> := map[];
    if authEnabled {
      headers := headers[AUTHORIZATION := TOKEN];
      assert headers == map[AUTHORIZATION := TOKEN];
    }
    var files := map[
      "phone" := Part(None, PHONE),
      "image_url" := Part(None, posterUrl),
      "caption" := Part(None, bodyText),
      "compress" := Part(None, "true")
    ];
    req := Request(WEBHOOK_URL, headers, files);
  }

  /** The main block after parsing: stop at a failed gate, otherwise build
      the request. */
  method RunMain(args: map<string, Value>) returns (o: Outcome)
    requires HasGateKeys(args)
    ensures o.NotSent? <==> !Truthy(args["poster"]) || !Supported(args["media_type"])
    ensures o.NotSent? ==> Decide(args) == Failure(o.reason)
    ensures o.Sent? ==> o.request == Request(
      WEBHOOK_URL,
      Headers(Truthy(args["auth"])),
      Payload(Render(TEMPLATES[args["media_type"].s], args), Text(args["poster"]) + IMAGE_SUFFIX))
  {
    match Decide(args)
    case Failure(reason) =>
      o := NotSent(reason);
    case Success(plan) =>
      var req := SendWebhook(plan.caption, plan.imageUrl, plan.auth);
      o := Sent(req);
  }

  /** When nothing in the namespace is truthy, as with an empty command
      line, the poster gate stops the script. */
  lemma BlankNamespaceNotSent(args: map<string, Value>)
    requires HasGateKeys(args)
    requires forall d :: d in args ==> !Truthy(args[d])
    ensures Decide(args) == Failure(MissingPoster)
  {
    assert !Truthy(args["poster"]);
  }

  /** The caption depends only on the fields the chosen template names: any
      other attribute of the namespace, or any added key, leaves it as it is. */
  lemma CaptionNamedOnly(a: map<string, Value>, b: map<string, Value>)
    requires HasGateKeys(a) && HasGateKeys(b)
    requires a["poster"] == b["poster"] && a["media_type"] == b["media_type"] && a["auth"] == b["auth"]
    requires Supported(a["media_type"])
    requires var t := TEMPLATES[a["media_type"].s];
      forall k :: 0 <= k < |FieldNames(t)| ==> Lookup(a, FieldNames(t)[k]) == Lookup(b, FieldNames(t)[k])
    ensures Decide(a) == Decide(b)
  {
    RenderNamedOnly(TEMPLATES[a["media_type"].s], a, b);
  }

  /** The caption sent never holds a brace, so no placeholder is left in
      it, as long as the values on the command line hold none. */
  lemma CaptionBraceFree(args: map<string, Value>)
    requires HasGateKeys(args)
    requires forall d :: d in args ==> BraceFree(Text(args[d]))
    ensures Decide(args).Success? ==> BraceFree(Decide(args).value.caption)
  {
    if Decide(args).Success? {
      TemplatesBraceFree(args["media_type"].s, args);
    }
  }

  /** With an empty command line nothing is sent: the poster is `''`. */
  lemma EmptyCommandLineNotSent()
    ensures HasGateKeys(DefaultNamespace())
    ensures Decide(DefaultNamespace()) == Failure(MissingPoster)
  {
    MediaTypeDefault();
    PosterDefault();
    AuthDefault();
    DefaultNamespaceBlank();
    BlankNamespaceNotSent(DefaultNamespace());
  }
}
