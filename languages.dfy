/** The language of an open file, from the extension of its name: the
    editor's language id and the status bar's display name. */
module Languages {
  import opened Wrappers
  import opened Strings

  /** `name.split('.').pop().toLowerCase()`: the text after the last dot,
      lower-cased; the whole name when it has no dot. */
  function Extension(name: string): (r: string)
    ensures '.' !in r
  {
    var e := LastPiece(name, '.');
    assert forall k :: 0 <= k < |e| ==> Lower(e)[k] == LowerChar(e[k]) && e[k] != '.';
    Lower(e)
  }

  /** The editor's `getLanguageFromPath`: a Monaco language id. */
  function EditorLanguage(name: string): string
  {
    LanguageId(Extension(name))
  }

  /** The editor's switch over the extension. */
  function LanguageId(ext: string): string
  {
    match ext
    case "js" => "javascript"
    case "jsx" => "javascript"
    case "ts" => "typescript"
    case "tsx" => "typescript"
    case "css" => "css"
    case "json" => "json"
    case "md" => "markdown"
    case "html" => "html"
    case _ => "plaintext"
  }

  /** The status bar's `getLanguageFromPath`: nothing for a missing or
      empty name, otherwise a display name. */
  function StatusLanguage(name: Option<string>): string
  {
    match name
    case None => ""
    case Some(n) => if n == "" then "" else LanguageTitle(Extension(n))
  }

  /** The status bar's switch over the extension. */
  function LanguageTitle(ext: string): string
  {
    match ext
    case "js" => "JavaScript"
    case "jsx" => "JavaScript"
    case "ts" => "TypeScript"
    case "tsx" => "TypeScript"
    case "css" => "CSS"
    case "json" => "JSON"
    case "md" => "Markdown"
    case "html" => "HTML"
    case _ => "Plain Text"
  }

  /** The display name of each language id the editor uses. */
  function DisplayName(id: string): (r: string)
    ensures r != ""
  {
    match id
    case "javascript" => "JavaScript"
    case "typescript" => "TypeScript"
    case "css" => "CSS"
    case "json" => "JSON"
    case "markdown" => "Markdown"
    case "html" => "HTML"
    case _ => "Plain Text"
  }

  /** The editor always gets one of seven ids. */
  lemma EditorLanguageIsKnown(name: string)
    ensures EditorLanguage(name) in
      ["javascript", "typescript", "css", "json", "markdown", "html", "plaintext"]
  {
  }

  /** The two switches name the same language for every extension. */
  lemma SwitchesAgree(ext: string)
    ensures LanguageTitle(ext) == DisplayName(LanguageId(ext))
  {
  }

  /** The two mappers agree: for every non-empty name the status bar shows
      the display name of the editor's language; for the empty name it
      shows nothing while the editor uses plain text. */
  lemma StatusBarAgreesWithEditor(name: string)
    ensures name != "" ==> StatusLanguage(Some(name)) == DisplayName(EditorLanguage(name))
    ensures StatusLanguage(Some("")) == "" && StatusLanguage(None) == ""
    ensures EditorLanguage("") == "plaintext"
  {
    SwitchesAgree(Extension(name));
    assert Split("", '.') == [""];
    assert Lower("") == "";
  }

  /** Case does not matter: a name and its lower-cased form get the same
      language. */
  lemma LanguageIgnoresCase(name: string)
    ensures Extension(Lower(name)) == Extension(name)
    ensures EditorLanguage(Lower(name)) == EditorLanguage(name)
    ensures StatusLanguage(Some(Lower(name))) == StatusLanguage(Some(name))
  {
    LowerLastPiece(name, '.');
    LowerTwice(LastPiece(name, '.'));
  }

  /** Only the text after the last dot counts, whatever comes before it
      (other dots included). */
  lemma ExtensionAfterLastDot(base: string, ext: string)
    requires '.' !in ext
    ensures Extension(base + "." + ext) == Lower(ext)
    ensures EditorLanguage(base + "." + ext) == LanguageId(Lower(ext))
    ensures StatusLanguage(Some(base + "." + ext)) == LanguageTitle(Lower(ext))
  {
    LastPieceAfterSeparator(base, '.', ext);
  }

  /** A name ending in `.tsx`, `.TSX` or `.Tsx` is TypeScript to both mappers. */
  lemma TsxIsTypeScript(base: string, ext: string)
    requires ext in ["tsx", "TSX", "Tsx"]
    ensures EditorLanguage(base + "." + ext) == "typescript"
    ensures StatusLanguage(Some(base + "." + ext)) == "TypeScript"
  {
    LowerTsx(ext);
    ExtensionAfterLastDot(base, ext);
  }

  lemma LowerTsx(ext: string)
    requires ext in ["tsx", "TSX", "Tsx"]
    ensures '.' !in ext && Lower(ext) == "tsx"
  {
    assert |ext| == 3;
    assert Lower(ext) == [LowerChar(ext[0]), LowerChar(ext[1]), LowerChar(ext[2])];
  }

  /** A name without a dot is its own extension, lower-cased: `md` alone
      is Markdown. */
  lemma NameWithoutDot(name: string)
    requires '.' !in name
    ensures Extension(name) == Lower(name)
    ensures EditorLanguage(name) == LanguageId(Lower(name))
  {
    LastPieceIsSuffix(name, '.');
  }
}
