/** The highlighter's syntax table (`Uv.get_syntaxes`) and the `LANGUAGES` table derived
    from it at start-up (toopaste.rb:60-65). The table is loaded from grammar files on
    disk; here it is a given, immutable value. */
module Syntaxes {
  import opened Wrappers

  /** What the source reads of a loaded grammar: its pretty name and its file types. */
  datatype Grammar = Grammar(name: string, fileTypes: seq<string>)

  /** One entry of the syntax table: the syntax name (the grammar file's base name) and
      the grammar loaded from it. */
  datatype Entry = Entry(tag: string, grammar: Grammar)

  /** The table is a Ruby Hash: enumerated in insertion order, no key twice. */
  ghost predicate UniqueTags(t: seq<Entry>) {
    forall i, j | 0 <= i < j < |t| :: t[i].tag != t[j].tag
  }

  type SyntaxTable = t: seq<Entry> | UniqueTags(t) witness []

  predicate HasTag(t: seq<Entry>, tag: string) {
    exists i | 0 <= i < |t| :: t[i].tag == tag
  }

  /** `LANGUAGES`: every syntax name mapped to its grammar's pretty name, written entry
      by entry in the table's order. */
  function Languages(t: seq<Entry>): map<string, string> {
    if t == [] then map[]
    else Languages(t[..|t| - 1])[t[|t| - 1].tag := t[|t| - 1].grammar.name]
  }

  /** The keys of `LANGUAGES` are exactly the syntax names. */
  lemma {:induction false} LanguagesKeys(t: seq<Entry>)
    ensures forall tag :: tag in Languages(t) <==> HasTag(t, tag)
  {
    if t != [] {
      var n := |t| - 1;
      var front := t[..n];
      LanguagesKeys(front);
      forall tag ensures tag in Languages(t) <==> HasTag(t, tag) {
        if HasTag(t, tag) {
          var i :| 0 <= i < |t| && t[i].tag == tag;
          if i < n { assert front[i].tag == tag; }
        }
        if tag in Languages(t) && tag != t[n].tag {
          assert HasTag(front, tag);
          var i :| 0 <= i < |front| && front[i].tag == tag;
          assert t[i].tag == tag;
        }
      }
    }
  }

  /** With no syntax name twice, each name is mapped to its own grammar's name. */
  lemma {:induction false} LanguagesOfTable(t: SyntaxTable)
    ensures forall tag :: tag in Languages(t) <==> HasTag(t, tag)
    ensures forall i | 0 <= i < |t| :: t[i].tag in Languages(t) && Languages(t)[t[i].tag] == t[i].grammar.name
  {
    LanguagesKeys(t);
    if t != [] {
      var n := |t| - 1;
      var front: SyntaxTable := t[..n];
      LanguagesOfTable(front);
      forall i | 0 <= i < n ensures Languages(t)[t[i].tag] == t[i].grammar.name {
        assert front[i] == t[i];
      }
    }
  }

  /** Start-up loop building `LANGUAGES` from the syntax table (toopaste.rb:60-65). */
  method BuildLanguages(t: SyntaxTable) returns (languages: map<string, string>)
    ensures forall tag :: tag in languages <==> HasTag(t, tag)
    ensures forall i | 0 <= i < |t| :: t[i].tag in languages && languages[t[i].tag] == t[i].grammar.name
  {
    languages := map[];
    for i := 0 to |t|
      invariant languages == Languages(t[..i])
    {
      assert t[..i + 1][..i] == t[..i];
      languages := languages[t[i].tag := t[i].grammar.name];
    }
    assert t[..|t|] == t;
    LanguagesOfTable(t);
  }

  /** The first file type of the first grammar named `tag` that lists any file type:
      the extension the filename loop (toopaste.rb:111-115) returns, if any. */
  function FileExtension(t: seq<Entry>, tag: string): Option<string> {
    if t == [] then None
    else if t[0].tag == tag && t[0].grammar.fileTypes != [] then Some(t[0].grammar.fileTypes[0])
    else FileExtension(t[1..], tag)
  }

  /** In a table without duplicate names, the extension is the first file type of the
      grammar named `tag`, and there is none exactly when that grammar is missing or
      lists no file type. */
  lemma {:induction false} FileExtensionOfTable(t: SyntaxTable, tag: string)
    ensures FileExtension(t, tag).Some? <==>
              exists i | 0 <= i < |t| :: t[i].tag == tag && t[i].grammar.fileTypes != []
    ensures forall i | 0 <= i < |t| && t[i].tag == tag && t[i].grammar.fileTypes != [] ::
              FileExtension(t, tag) == Some(t[i].grammar.fileTypes[0])
  {
    if t != [] {
      var rest: SyntaxTable := t[1..];
      FileExtensionOfTable(rest, tag);
      if !(t[0].tag == tag && t[0].grammar.fileTypes != []) {
        if exists i | 0 <= i < |t| :: t[i].tag == tag && t[i].grammar.fileTypes != [] {
          var i :| 0 <= i < |t| && t[i].tag == tag && t[i].grammar.fileTypes != [];
          assert rest[i - 1] == t[i];
        }
        forall i | 1 <= i < |t| && t[i].tag == tag && t[i].grammar.fileTypes != []
          ensures FileExtension(t, tag) == Some(t[i].grammar.fileTypes[0])
        {
          assert rest[i - 1] == t[i];
        }
      }
    }
  }
}
