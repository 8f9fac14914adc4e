# toopaste paste lifecycle, modelled in Dafny

toopaste is a small Sinatra paste service. A user submits a text body with a title, an
author, a syntax tag, a visibility and an optional expiry. The service stores it under a
random four-character id and serves it back as a highlighted page, as raw text, or as a
download. This project models the logic of `toopaste.rb` that decides what happens to a
paste:

- the `Snippet` record and its derived `title`, `language` and `filename` accessors;
- the syntax table of the highlighter (`Uv.get_syntaxes`) and the `LANGUAGES` table
  built from it at start-up;
- the create handler: language normalisation, the visibility default, the validations,
  the id loop, the stored record and the IRC announcement text;
- the show handler: lazy expiry, the choice between page, raw and download, the
  `Content-Disposition` header and the theme;
- the public listing of the front page;
- the admin delete handler.

Files:

- `wrappers.dfy`: `Option`.
- `syntaxes.dfy`: the syntax table and `LANGUAGES`.
- `snippets.dfy`: the `Snippet` record and its accessors.
- `store.dfy`: the store, a class `SnippetStore` whose `snippets: map<string, Snippet>`
  field stands for the DataMapper table, with id allocation and the listing query.
- `handlers.dfy`: the create, show and delete handlers.

Inputs the source takes from its surroundings are parameters here:

- the current time `now`, an integer;
- the results of `rand`, as a sequence of four-index draws;
- the route capture and the `User-Agent` header, already extracted;
- the session's theme, the configured default theme, site title, listing limit and
  admin password (`toopaste.config.sample.rb`: `iplastic`, 25, ...);
- the request's base URL;
- the Basic-auth credentials, already decoded.

Behaviour of the code the model keeps, which a reader might not expect:

- Two different plain-text fallbacks are used. The accessor falls back to `text.plain`
  (toopaste.rb:105). Create stores `plain_text` (toopaste.rb:143).
  `NormalizedLanguageReadBack` states what such a stored tag reads back as.
- The file extension is looked up with the raw stored language, not with the accessor's
  fallback (toopaste.rb:112).
- Deleting an id that is not stored ends in the error handler. `Snippet.get` returns nil
  and `nil.destroy` raises (`ServerError`); nothing is removed.
- Raw delivery is chosen for a user agent with `curl/` or `Wget/` at the start of a
  line. Ruby's `^` anchors at every line start, and `DownloaderAgent` models that.
  `DownloaderAgentOneLine` shows it is a plain prefix test on a one-line header.
- The id loop at toopaste.rb:151 draws until it finds a free id. Here it is bounded by
  the given draws, and running out is the explicit outcome `IdsExhausted`.
- The announcement is gated only on the `announce_irc` request field.
  `settings.announce_irc` is a Hash, so it is always truthy, and its `:active` flag is
  not consulted at toopaste.rb:163.

## Model

| member | source | states |
|---|---|---|
| `Syntaxes.LanguagesKeys` | toopaste.rb:60-65 | the keys of `LANGUAGES` are exactly the syntax names of the table |
| `Syntaxes.LanguagesOfTable` | toopaste.rb:60-65 | with unique syntax names, `LANGUAGES` maps each name to its own grammar's pretty name |
| `Syntaxes.BuildLanguages` | toopaste.rb:60-65 | the start-up loop yields a table whose keys are the syntax names, each mapped to its grammar's name |
| `Syntaxes.FileExtensionOfTable` | toopaste.rb:111-115 | the extension is present exactly when the grammar named by the tag lists a file type, and it is that list's first entry |
| `Snippets.Title` | toopaste.rb:92-98 | the stored title when non-empty, else `#` followed by the id; never empty |
| `Snippets.Language` | toopaste.rb:101-107 | the stored tag exactly when it is a `LANGUAGES` key, else `text.plain`; so always a key or `text.plain` |
| `Snippets.Sanitize` | toopaste.rb:110 | the result is no longer than the input and holds only characters of `[A-Za-z0-9_.-]`; a single safe character is kept and a single unsafe one is removed |
| `Snippets.SanitizeConcat` | toopaste.rb:110 | sanitizing distributes over concatenation, so characters are kept or dropped one by one, in order |
| `Snippets.SanitizeKeepsSafe` | toopaste.rb:110 | a string of safe characters is kept whole |
| `Snippets.SanitizeIdempotent` | toopaste.rb:110 | sanitizing twice equals sanitizing once |
| `Snippets.FileNameFormat` | toopaste.rb:109-117 | the file name is `toopaste-`, the sanitized title, `.`, and the first file type of the grammar named by the stored language, or `txt` when there is none |
| `Snippets.Filename` | toopaste.rb:109-117 | the scan of the syntax table with early return yields exactly that file name |
| `Store.IdFromDraw` | toopaste.rb:150-151 | four draws from the alphabet give a four-character id over `[a-z0-9]` |
| `Store.EveryIdDrawable` | toopaste.rb:150-151 | every four-character id over `[a-z0-9]` can be drawn |
| `Store.SnippetStore.constructor` | toopaste.rb:120-121 | the store starts empty and valid |
| `Store.SnippetStore.Insert` | toopaste.rb:162 | saving adds exactly the new record under its id and keeps the store invariant |
| `Store.SnippetStore.Destroy` | toopaste.rb:198 | destroying removes exactly that id and keeps the store invariant |
| `Store.SnippetStore.AllocateId` | toopaste.rb:150-151 | the id is well formed, not in the store, and the first drawn id not in the store; no id exactly when every draw is taken |
| `Store.SnippetStore.Newest` | toopaste.rb:131 | picks a snippet with the greatest creation time among the given ids |
| `Store.SnippetStore.PublicListing` | toopaste.rb:131 | only stored public snippets, no id twice, newest first, `min(limit, #public)` of them, none left out newer than the last listed |
| `Store.ListingStep` | toopaste.rb:131 | appending the newest unlisted public snippet keeps the listing drawn from the store, duplicate-free and newest first |
| `Handlers.NormalizeLanguage` | toopaste.rb:140-144 | the submitted tag when it is a `LANGUAGES` key, else `plain_text` |
| `Handlers.NormalizedLanguageReadBack` | toopaste.rb:140-144 | a stored normalised tag reads back as itself, or as `plain_text` or `text.plain` depending on whether `plain_text` is a key |
| `Handlers.VisibilityOf` | toopaste.rb:148 | an absent field means public; only `public` and `private` are accepted |
| `Handlers.Validate` | toopaste.rb:86-87 | a save fails on an empty body or a visibility outside the enum, and only then |
| `Handlers.Announcement` | toopaste.rb:164-171 | starts with `new toopaste snippet`, ends with ` <base_url>/<id>`, and has the length of its optional parts |
| `Handlers.AnnouncementParts` | toopaste.rb:164-171 | ` by <author>` follows the opening exactly when the author is non-empty, `: <title>` comes right before the address when the title is non-empty, and with neither the text is the opening and the address |
| `Handlers.Create` | toopaste.rb:138-185 | on success the store gains exactly one record under a fresh well-formed id with the normalised fields, and the announcement is built when requested; on a validation failure or exhausted draws the store is unchanged |
| `Handlers.DownloaderAgentOneLine` | toopaste.rb:189 | for a one-line user agent, the curl/Wget test is a prefix test |
| `Handlers.DeliveryMode` | toopaste.rb:189-190 | download exactly for the `download` capture; raw for the `raw` capture or a curl/Wget agent otherwise; else rendered |
| `Handlers.ContentDisposition` | toopaste.rb:203-208 | exactly `attachment; filename="<name>"` for a download and `inline; filename="<name>"` for raw |
| `Handlers.ActiveTheme` | toopaste.rb:213-218 | the session's theme when set, else the default |
| `Handlers.Show` | toopaste.rb:187-228 | a missing id is not found; an expired paste is removed and not found; any other paste is delivered unchanged with the store unchanged, as plain text with its disposition or as a page with the accessor's language, the theme and the title |
| `Handlers.Delete` | toopaste.rb:230-239 | without admin credentials 401 and no change; a missing id ends in the error handler with no change; otherwise exactly that id is removed and the confirmation returned |

## Left out

- Sinatra routing, the route regex, sessions and cookies, `Rack::PageSpeed`, and the
  HAML/SCSS templates. The route capture, the user agent and the session values are
  parameters. The session write of the author at toopaste.rb:147 is not modelled.
- DataMapper setup, `auto_upgrade!` and sqlite. The table is the map field of
  `SnippetStore`. Two concurrent creates racing for one id are not modelled.
- DataMapper's implicit validations other than the body-required check and the
  visibility enum are not modelled, such as the default maximum length of `String`
  properties. `:required` on the body is modelled as "non-empty"; whitespace-only
  bodies are not distinguished.
- `created_at` and `updated_at` are set to `now` at create, as a timestamps plugin
  would. No update path exists.
- `Uv.init_syntaxes` and `Uv.copy_files` read and copy grammar files. The syntax table
  is a given immutable value with unique names.
- `Uv.parse` rendering, and any error it raises. `Page` carries the renderer's inputs
  instead.
- The DRb/IRC calls at toopaste.rb:173-175. Only the announcement text is modelled.
- `Time.now.shift` and `Time.parse`. The create request carries the absolute expiry time,
  or none when the field is empty. Expiry compares it strictly against `now`.
- The Basic-auth header parsing of `authorized?`. The decoded credentials are compared
  with `("admin", adminpass)`.
- `rand`. It is replaced by the given draws, each four indexes below 36.
- Form fields that are absent (Ruby `nil`) are not modelled. Title, author, body and
  language are strings; a nil title would make `Snippet#title` raise. A nil user agent would make the show handler raise, except on the `raw` route (toopaste.rb:189).
- The `else` branch of the delete handler (`destroy` returning false) cannot arise with a
  map store, so "is in another castle" is never answered.
- IdFromDraw: states only that the id is well formed. The exact per-character relation
  to the alphabet is in its body and in `EveryIdDrawable`.
