/** The `Snippet` record (toopaste.rb:79-118) and its derived accessors. */
module Snippets {
  import opened Wrappers
  import opened Syntaxes

  datatype Visibility = Public | Private

  /** One stored paste. Times are integers (seconds); `deleteAt` is `None` for a paste
      that never expires. */
  datatype Snippet = Snippet(
    randomId: string,
    title: string,
    language: string,
    author: string,
    visibility: Visibility,
    body: string,
    deleteAt: Option<int>,
    createdAt: int,
    updatedAt: int)

  predicate StartsWith(s: string, prefix: string) {
    |prefix| <= |s| && s[..|prefix|] == prefix
  }

  predicate EndsWith(s: string, suffix: string) {
    |suffix| <= |s| && s[|s| - |suffix|..] == suffix
  }

  /** `Snippet#title`: the stored title, or `#` and the id when the title is empty. */
  function Title(s: Snippet): (r: string)
    ensures r != ""
    ensures s.title != "" ==> r == s.title
    ensures s.title == "" ==> r == "#" + s.randomId
  {
    if s.title != "" then s.title else "#" + s.randomId
  }

  /** `Snippet#language`: the stored tag when it is a key of `LANGUAGES`, otherwise the
      display fallback `text.plain`. */
  function Language(table: SyntaxTable, s: Snippet): (r: string)
    ensures HasTag(table, s.language) ==> r == s.language
    ensures !HasTag(table, s.language) ==> r == "text.plain"
    ensures HasTag(table, r) || r == "text.plain"
  {
    LanguagesOfTable(table);
    if s.language in Languages(table) then s.language else "text.plain"
  }

  /** The characters a file name keeps: ASCII letters, digits, `_`, `-` and `.`. */
  predicate SafeChar(c: char) {
    ('A' <= c <= 'Z') || ('a' <= c <= 'z') || ('0' <= c <= '9') || c == '_' || c == '-' || c == '.'
  }

  /** The title clean-up of the file name: every character that is not safe is
      removed, and the safe ones are kept in their order. */
  function Sanitize(s: string): (r: string)
    ensures |r| <= |s|
    ensures forall i | 0 <= i < |r| :: SafeChar(r[i])
    ensures |s| == 1 ==> r == if SafeChar(s[0]) then s else []
  {
    if s == [] then [] else (if SafeChar(s[0]) then [s[0]] else []) + Sanitize(s[1..])
  }

  /** Sanitizing works character by character: it distributes over concatenation. */
  lemma {:induction false} SanitizeConcat(a: string, b: string)
    ensures Sanitize(a + b) == Sanitize(a) + Sanitize(b)
  {
    if a != [] {
      assert (a + b)[0] == a[0] && (a + b)[1..] == a[1..] + b;
      SanitizeConcat(a[1..], b);
    } else {
      assert a + b == b;
    }
  }

  /** A string made only of safe characters is left as it is. */
  lemma {:induction false} SanitizeKeepsSafe(s: string)
    requires forall i | 0 <= i < |s| :: SafeChar(s[i])
    ensures Sanitize(s) == s
  {
    if s != [] {
      SanitizeKeepsSafe(s[1..]);
    }
  }

  /** Hence sanitizing twice is sanitizing once. */
  lemma SanitizeIdempotent(s: string)
    ensures Sanitize(Sanitize(s)) == Sanitize(s)
  {
    SanitizeKeepsSafe(Sanitize(s));
  }

  /** The name a raw or downloaded paste is delivered under: `toopaste-`, the sanitized
      title, and the extension of the syntax named by the STORED language (not the
      accessor's fallback), or `txt`. */
  function FileName(table: SyntaxTable, s: Snippet): string {
    "toopaste-" + Sanitize(Title(s)) + "." +
      (match FileExtension(table, s.language) case Some(e) => e case None => "txt")
  }

  /** The format of the file name, stated against the syntax table itself. */
  lemma FileNameFormat(table: SyntaxTable, s: Snippet)
    ensures StartsWith(FileName(table, s), "toopaste-")
    ensures forall i | 0 <= i < |table| && table[i].tag == s.language && table[i].grammar.fileTypes != [] ::
              FileName(table, s) == "toopaste-" + Sanitize(Title(s)) + "." + table[i].grammar.fileTypes[0]
    ensures (forall i | 0 <= i < |table| :: table[i].tag != s.language || table[i].grammar.fileTypes == []) ==>
              FileName(table, s) == "toopaste-" + Sanitize(Title(s)) + ".txt"
  {
    FileExtensionOfTable(table, s.language);
  }

  /** `Snippet#filename` (toopaste.rb:109-117): scans the syntax table in order and
      returns at the first grammar named by the stored language that has a file type. */
  method Filename(table: SyntaxTable, s: Snippet) returns (r: string)
    ensures r == FileName(table, s)
  {
    var safeTitle := "toopaste-" + Sanitize(Title(s));
    for i := 0 to |table|
      invariant FileExtension(table[i..], s.language) == FileExtension(table, s.language)
    {
      if table[i].tag == s.language && table[i].grammar.fileTypes != [] {
        return safeTitle + "." + table[i].grammar.fileTypes[0];
      }
      assert table[i..][1..] == table[i + 1..];
    }
    return safeTitle + ".txt";
  }

  /** The expiry test of the show handler (toopaste.rb:195-197): a deletion time is set
      and lies strictly in the past. */
  predicate Expired(s: Snippet, now: int) {
    s.deleteAt.Some? && s.deleteAt.value < now
  }
}
