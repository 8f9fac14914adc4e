/** The request handlers of toopaste.rb: create (138-185), show (187-228), delete
    (230-239), and the decisions they make. Routing, sessions, templates and the
    renderer are outside; their inputs arrive as already-extracted values. */
module Handlers {
  import opened Wrappers
  import opened Syntaxes
  import opened Snippets
  import opened Store

  // ---------------------------------------------------------------- create

  /** The form fields of a create request. `deleteAt` is the absolute expiry time the
      handler computes (`None` when the expiry field is empty); `visibility` is `None`
      when the field is absent; `announce` is whether the `announce_irc` field is sent. */
  datatype CreateParams = CreateParams(
    title: string,
    language: string,
    body: string,
    author: string,
    visibility: Option<string>,
    deleteAt: Option<int>,
    announce: bool)

  /** The validation failures `Snippet#save` reports. */
  datatype FieldError = BodyRequired | VisibilityNotInSet

  datatype CreateOutcome =
    | Created(id: string, announcement: Option<string>)  // redirect to "/<id>"
    | Rejected(errors: set<FieldError>)                   // flash the errors, redirect to "/"
    | IdsExhausted                                        // every given draw was taken

  /** Create-time language normalisation: a tag `LANGUAGES` does not know becomes the
      literal `plain_text` (a different literal from the accessor's `text.plain`). */
  function NormalizeLanguage(table: SyntaxTable, tag: string): (r: string)
    ensures HasTag(table, tag) ==> r == tag
    ensures !HasTag(table, tag) ==> r == "plain_text"
  {
    LanguagesOfTable(table);
    if tag in Languages(table) then tag else "plain_text"
  }

  /** What a stored, normalised tag reads back as through `Snippet#language`: an
      unknown tag reads as `plain_text` only if that is itself a known syntax name. */
  lemma NormalizedLanguageReadBack(table: SyntaxTable, s: Snippet, tag: string)
    requires s.language == NormalizeLanguage(table, tag)
    ensures HasTag(table, tag) ==> Language(table, s) == tag
    ensures !HasTag(table, tag) && HasTag(table, "plain_text") ==> Language(table, s) == "plain_text"
    ensures !HasTag(table, tag) && !HasTag(table, "plain_text") ==> Language(table, s) == "text.plain"
  {
  }

  /** The visibility field with its default, then the enum property's check: an absent
      field means public; only the two enum values are accepted. */
  function VisibilityOf(param: Option<string>): (r: Option<Visibility>)
    ensures r == Some(Public) <==> param == None || param == Some("public")
    ensures r == Some(Private) <==> param == Some("private")
    ensures r == None <==> param.Some? && param.value != "public" && param.value != "private"
  {
    match param
    case None => Some(Public)
    case Some(v) => if v == "public" then Some(Public) else if v == "private" then Some(Private) else None
  }

  /** The validations `Snippet#save` runs: body required, visibility in the enum. */
  function Validate(p: CreateParams): (errors: set<FieldError>)
    ensures BodyRequired in errors <==> p.body == ""
    ensures VisibilityNotInSet in errors <==> VisibilityOf(p.visibility).None?
    ensures errors == {} <==> p.body != "" && VisibilityOf(p.visibility).Some?
  {
    (if p.body == "" then {BodyRequired} else {}) +
    (if VisibilityOf(p.visibility).None? then {VisibilityNotInSet} else {})
  }

  const Opening: string := "new toopaste snippet"

  function ByAuthor(author: string): string { if author != "" then " by " + author else "" }

  function OnTitle(title: string): string { if title != "" then ": " + title else "" }

  function Link(baseUrl: string, id: string): string { " " + baseUrl + "/" + id }

  /** The IRC announcement text (toopaste.rb:164-171), grown piece by piece: the fixed
      opening, ` by <author>` when there is an author, `: <title>` when the submitted
      title is non-empty, and always the paste's address last. */
  function Announcement(author: string, title: string, baseUrl: string, id: string): (r: string)
    ensures StartsWith(r, Opening)
    ensures EndsWith(r, " " + baseUrl + "/" + id)
    ensures |r| == |Opening| + (if author != "" then 4 + |author| else 0) + (if title != "" then 2 + |title| else 0)
                   + 2 + |baseUrl| + |id|
  {
    var head := Opening + ByAuthor(author) + OnTitle(title);
    JoinEnds(head, Link(baseUrl, id));
    JoinEnds(Opening, ByAuthor(author) + OnTitle(title));
    assert StartsWith(head, Opening);
    head + Link(baseUrl, id)
  }

  /** What sits between the opening and the address: the author part exactly when there
      is an author, then the title part exactly when there is a title. */
  lemma AnnouncementParts(author: string, title: string, baseUrl: string, id: string)
    ensures author != "" ==> StartsWith(Announcement(author, title, baseUrl, id)[|Opening|..], " by " + author)
    ensures author == "" && title != "" ==> StartsWith(Announcement(author, title, baseUrl, id)[|Opening|..], ": " + title)
    ensures title != "" ==> EndsWith(Announcement(author, title, baseUrl, id), ": " + title + Link(baseUrl, id))
    ensures author == "" && title == "" ==> Announcement(author, title, baseUrl, id) == Opening + Link(baseUrl, id)
  {
    Pieces(Opening, ByAuthor(author), OnTitle(title), Link(baseUrl, id));
    assert author == "" && title == "" ==> ByAuthor(author) + OnTitle(title) == "";
  }

  lemma JoinEnds(a: string, b: string)
    ensures StartsWith(a + b, a) && EndsWith(a + b, b)
  {
    assert (a + b)[..|a|] == a;
    assert (a + b)[|a|..] == b;
  }

  lemma Pieces(p: string, b: string, t: string, l: string)
    ensures StartsWith((p + b + t + l)[|p|..], b)
    ensures b == "" ==> StartsWith((p + b + t + l)[|p|..], t)
    ensures EndsWith(p + b + t + l, t + l)
  {
    var r := p + b + t + l;
    assert r[|p|..][..|b|] == b;
    if b == "" { assert r[|p|..][..|t|] == t; }
    assert r[|r| - |t + l|..] == t + l;
  }

  /** The create handler (toopaste.rb:138-185). `draws` stands for the calls to `rand`,
      `now` for the time the record is saved, `baseUrl` for the request's scheme and host.
      The announcement is built whenever the `announce_irc` field is present: the
      `settings.announce_irc` it is also checked against is a Hash, hence always true. */
  method Create(store: SnippetStore, table: SyntaxTable, p: CreateParams, draws: seq<seq<int>>,
                now: int, baseUrl: string)
    returns (out: CreateOutcome)
    requires store.Valid()
    requires forall i | 0 <= i < |draws| :: ValidDraw(draws[i])
    modifies store
    ensures store.Valid()
    ensures out.IdsExhausted? <==> forall i | 0 <= i < |draws| :: IdFromDraw(draws[i]) in old(store.snippets)
    ensures out.Rejected? ==> out.errors == Validate(p) && out.errors != {}
    ensures out.Created? ==> Validate(p) == {}
    ensures !out.IdsExhausted? ==> (out.Created? <==> Validate(p) == {})
    ensures !out.Created? ==> store.snippets == old(store.snippets)
    ensures out.Created? ==>
              WellFormedId(out.id) && out.id !in old(store.snippets) &&
              store.snippets == old(store.snippets)[out.id := Snippet(
                out.id, p.title, NormalizeLanguage(table, p.language), p.author,
                VisibilityOf(p.visibility).value, p.body, p.deleteAt, now, now)]
    ensures out.Created? ==>
              out.announcement == if p.announce then Some(Announcement(p.author, p.title, baseUrl, out.id)) else None
  {
    var language := NormalizeLanguage(table, p.language);
    var visibility := VisibilityOf(p.visibility);
    var randomId := store.AllocateId(draws);
    if randomId.None? {
      return IdsExhausted;
    }
    var errors := Validate(p);
    if errors != {} {
      return Rejected(errors);
    }
    var snippet := Snippet(randomId.value, p.title, language, p.author, visibility.value,
                           p.body, p.deleteAt, now, now);
    store.Insert(snippet);
    var announcement := None;
    if p.announce {
      announcement := Some(Announcement(p.author, p.title, baseUrl, randomId.value));
    }
    return Created(randomId.value, announcement);
  }

  // ------------------------------------------------------------------ show

  /** How a paste is delivered: rendered as a page, raw, or as a download. */
  datatype Delivery = Rendered | Raw | Download

  /** `prefix` occurs in `s` starting at index `i`; at index 0 this is `StartsWith(s, prefix)`. */
  predicate HasPrefixAt(s: string, i: int, prefix: string) {
    0 <= i && i + |prefix| <= |s| && s[i..i + |prefix|] == prefix
  }

  /** The user agent names curl or Wget: `curl/` or `Wget/` at the start of a line of
      the header value (a Ruby `^` anchors at every line start, not only the first). */
  predicate DownloaderAgent(userAgent: string) {
    exists i | 0 <= i < |userAgent| && (i == 0 || userAgent[i - 1] == '\n') ::
      HasPrefixAt(userAgent, i, "curl/") || HasPrefixAt(userAgent, i, "Wget/")
  }

  /** For a one-line user agent (what HTTP carries) the test is a plain prefix test. */
  lemma DownloaderAgentOneLine(userAgent: string)
    requires forall i | 0 <= i < |userAgent| :: userAgent[i] != '\n'
    ensures DownloaderAgent(userAgent) <==> StartsWith(userAgent, "curl/") || StartsWith(userAgent, "Wget/")
  {
    if StartsWith(userAgent, "curl/") {
      assert HasPrefixAt(userAgent, 0, "curl/");
    } else if StartsWith(userAgent, "Wget/") {
      assert HasPrefixAt(userAgent, 0, "Wget/");
    }
  }

  /** The route capture (`raw`, `download` or nothing) and the user agent decide the
      delivery (toopaste.rb:189-190, 203-205): download wins, then raw. */
  function DeliveryMode(capture: Option<string>, userAgent: string): (m: Delivery)
    ensures m == Download <==> capture == Some("download")
    ensures m == Raw <==> capture != Some("download") && (capture == Some("raw") || DownloaderAgent(userAgent))
    ensures m == Rendered <==> capture != Some("download") && capture != Some("raw") && !DownloaderAgent(userAgent)
  {
    if capture == Some("download") then Download
    else if capture == Some("raw") || DownloaderAgent(userAgent) then Raw
    else Rendered
  }

  /** The `Content-Disposition` header of a raw or downloaded paste. */
  function ContentDisposition(m: Delivery, filename: string): (h: string)
    requires m != Rendered
    ensures m == Download ==> h == "attachment; filename=\"" + filename + "\""
    ensures m == Raw ==> h == "inline; filename=\"" + filename + "\""
  {
    (if m == Download then "attachment" else "inline") + "; filename=\"" + filename + "\""
  }

  /** The theme: the one saved in the session, otherwise the configured default. */
  function ActiveTheme(sessionTheme: Option<string>, defaultTheme: string): (theme: string)
    ensures sessionTheme.Some? ==> theme == sessionTheme.value
    ensures sessionTheme.None? ==> theme == defaultTheme
  {
    match sessionTheme
    case Some(t) => t
    case None => defaultTheme
  }

  /** What the show handler answers. `Page` holds what is handed to the renderer
      (`Uv.parse`) and the page title; the rendering itself is opaque. */
  datatype ShowResponse =
    | NotFound
    | PlainText(contentType: string, contentDisposition: string, body: string)
    | Page(source: string, language: string, theme: string, pageTitle: string)

  /** The show handler (toopaste.rb:187-228). An expired paste is destroyed and the
      request answered as not found; any other paste is delivered with the store left
      as it was. */
  method Show(store: SnippetStore, table: SyntaxTable, capture: Option<string>, userAgent: string,
              id: string, sessionTheme: Option<string>, defaultTheme: string, siteTitle: string, now: int)
    returns (resp: ShowResponse)
    requires store.Valid()
    modifies store
    ensures store.Valid()
    ensures id !in old(store.snippets) ==> resp == NotFound && store.snippets == old(store.snippets)
    ensures id in old(store.snippets) && Expired(old(store.snippets)[id], now) ==>
              resp == NotFound && store.snippets == old(store.snippets) - {id}
    ensures id in old(store.snippets) && !Expired(old(store.snippets)[id], now) ==>
              store.snippets == old(store.snippets)
    ensures id in old(store.snippets) && !Expired(old(store.snippets)[id], now) &&
            DeliveryMode(capture, userAgent) != Rendered ==>
              var s := old(store.snippets)[id];
              resp == PlainText("text/plain", ContentDisposition(DeliveryMode(capture, userAgent), FileName(table, s)), s.body)
    ensures id in old(store.snippets) && !Expired(old(store.snippets)[id], now) &&
            DeliveryMode(capture, userAgent) == Rendered ==>
              var s := old(store.snippets)[id];
              resp == Page(s.body, Language(table, s), ActiveTheme(sessionTheme, defaultTheme), Title(s) + " | " + siteTitle)
  {
    var mode := DeliveryMode(capture, userAgent);
    if id !in store.snippets {
      return NotFound;
    }
    var snippet := store.snippets[id];
    if Expired(snippet, now) {
      store.Destroy(id);
      return NotFound;
    }
    if mode != Rendered {
      var filename := Filename(table, snippet);
      return PlainText("text/plain", ContentDisposition(mode, filename), snippet.body);
    }
    var theme := ActiveTheme(sessionTheme, defaultTheme);
    return Page(snippet.body, Language(table, snippet), theme, Title(snippet) + " | " + siteTitle);
  }

  // ---------------------------------------------------------------- delete

  datatype DeleteResponse =
    | Unauthorized(status: int, wwwAuthenticate: string, body: string)
    | ServerError                       // `nil.destroy` raised; the error handler answers
    | Deleted(message: string)

  /** The admin check: Basic credentials were sent and equal `admin` and the admin password. */
  predicate Authorized(credentials: Option<(string, string)>, adminPass: string) {
    credentials == Some(("admin", adminPass))
  }

  /** The delete handler (toopaste.rb:230-239). Without the admin credentials it halts
      with 401; for an id not in the store `Snippet.get` yields nil and calling `destroy`
      on it raises, so the request ends in the error handler with nothing removed. */
  method Delete(store: SnippetStore, id: string, credentials: Option<(string, string)>, adminPass: string)
    returns (resp: DeleteResponse)
    requires store.Valid()
    modifies store
    ensures store.Valid()
    ensures !Authorized(credentials, adminPass) ==>
              resp == Unauthorized(401, "Basic realm=\"Restricted Area\"", "Y U NO AUTHENTICATE?\n") &&
              store.snippets == old(store.snippets)
    ensures Authorized(credentials, adminPass) && id !in old(store.snippets) ==>
              resp == ServerError && store.snippets == old(store.snippets)
    ensures Authorized(credentials, adminPass) && id in old(store.snippets) ==>
              resp == Deleted("snippet #" + id + " won't be a problem anymore, sir.") &&
              store.snippets == old(store.snippets) - {id}
  {
    if !Authorized(credentials, adminPass) {
      return Unauthorized(401, "Basic realm=\"Restricted Area\"", "Y U NO AUTHENTICATE?\n");
    }
    if id !in store.snippets {
      return ServerError;
    }
    store.Destroy(id);
    return Deleted("snippet #" + id + " won't be a problem anymore, sir.");
  }
}
