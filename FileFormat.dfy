/**
 * The format classifier `getFileFormat`: the lower-cased file name is split
 * on '.', the last piece is the extension, and the extension is looked up in
 * a fixed table of 22 entries; anything else is "plaintext".
 */
module FileFormat {
  import opened Wrappers
  import opened Strings

  /** `toLowerCase` on one character, restricted to ASCII. */
  function LowerChar(ch: char): char
  {
    if 'A' <= ch <= 'Z' then (ch as int + 32) as char else ch
  }

  /** `toLowerCase` on a string, restricted to ASCII. */
  function Lower(s: string): (r: string)
    ensures |r| == |s|
    ensures forall i :: 0 <= i < |s| ==> r[i] == LowerChar(s[i])
  {
    seq(|s|, i requires 0 <= i < |s| => LowerChar(s[i]))
  }

  /** The extension table of `getFileFormat`. */
  const FormatTable: map<string, string> := map[
    "js" := "javascript",
    "jsx" := "javascript",
    "ts" := "typescript",
    "tsx" := "typescript",
    "py" := "python",
    "rb" := "ruby",
    "java" := "java",
    "cpp" := "cpp",
    "c" := "c",
    "cs" := "csharp",
    "php" := "php",
    "html" := "html",
    "css" := "css",
    "json" := "json",
    "yml" := "yaml",
    "yaml" := "yaml",
    "md" := "markdown",
    "sql" := "sql",
    "sh" := "bash",
    "bash" := "bash",
    "xml" := "xml",
    "swift" := "swift"
  ]

  /** The format for a file whose extension is not in the table. */
  const Plaintext: string := "plaintext"

  /** Text after the last '.' of the lower-cased name (the whole name if it has none). */
  function Extension(name: string): string
  {
    LastPiece(Lower(name), '.')
  }

  /** Own-property lookup of an extension, falling back to "plaintext". */
  function FormatOf(ext: string): string
  {
    if ext in FormatTable && FormatTable[ext] != "" then FormatTable[ext] else Plaintext
  }

  /** `getFileFormat(filename)`, with the table read through its own entries only. */
  function GetFileFormat(name: string): (r: string)
    ensures r != ""
  {
    FormatOf(Extension(name))
  }

  /** Every name gets "plaintext" or one of the table's values. */
  lemma GetFileFormatRange(name: string)
    ensures GetFileFormat(name) == Plaintext || GetFileFormat(name) in FormatTable.Values
  {
  }

  lemma EmptyNotInTable()
    ensures "" !in FormatTable
  {
  }

  lemma TableKeysPlain()
    ensures forall ext :: ext in FormatTable ==> '.' !in ext && Lower(ext) == ext
  {
    TableKeysHaveNoDot();
    TableKeysLowerCase();
  }

  lemma TableKeysHaveNoDot()
    ensures forall ext :: ext in FormatTable ==> '.' !in ext
  {
  }

  lemma TableKeysLowerCase()
    ensures forall ext :: ext in FormatTable ==> Lower(ext) == ext
  {
  }

  lemma TableValuesSingleLine()
    ensures forall ext :: ext in FormatTable ==> '\n' !in FormatTable[ext]
  {
  }

  lemma PrototypeKeysNotInTable()
    ensures forall k :: k in PrototypeKeys ==> k !in FormatTable
  {
  }

  lemma TableValuesNonEmpty()
    ensures forall ext :: ext in FormatTable ==> FormatTable[ext] != ""
  {
  }

  /** `toLowerCase` keeps '.' exactly where it was. */
  lemma LowerKeepsDots(s: string)
    ensures forall i :: 0 <= i < |s| ==> (Lower(s)[i] == '.' <==> s[i] == '.')
  {
  }

  /** `toLowerCase` distributes over concatenation. */
  lemma LowerAppend(a: string, b: string)
    ensures Lower(a + b) == Lower(a) + Lower(b)
  {
    assert forall i :: 0 <= i < |a + b| ==> Lower(a + b)[i] == (Lower(a) + Lower(b))[i];
  }

  /** Lower-casing twice is lower-casing once. */
  lemma LowerIdempotent(s: string)
    ensures Lower(Lower(s)) == Lower(s)
  {
    assert forall i :: 0 <= i < |s| ==> Lower(Lower(s))[i] == Lower(s)[i];
  }

  /** The classifier ignores ASCII letter case. */
  lemma GetFileFormatIgnoresCase(name: string)
    ensures GetFileFormat(Lower(name)) == GetFileFormat(name)
  {
    LowerIdempotent(name);
  }

  /**
   * Only the text after the last '.' decides the format: a name `stem.ext`
   * with a dot-free `ext` gets the table value of lower-cased `ext`, or
   * "plaintext" when that is not in the table.
   */
  lemma GetFileFormatOfExtension(stem: string, ext: string)
    requires '.' !in ext
    ensures Extension(stem + "." + ext) == Lower(ext)
    ensures Lower(ext) in FormatTable ==> GetFileFormat(stem + "." + ext) == FormatTable[Lower(ext)]
    ensures Lower(ext) !in FormatTable ==> GetFileFormat(stem + "." + ext) == Plaintext
  {
    LowerAppend(stem + ".", ext);
    LowerAppend(stem, ".");
    assert Lower(".") == ".";
    LowerKeepsDots(ext);
    LastPieceAfterSeparator(Lower(stem), '.', Lower(ext));
  }

  /** Every one of the 22 listed extensions maps to its table value, whatever the stem. */
  lemma GetFileFormatTable(stem: string, ext: string)
    requires ext in FormatTable
    ensures GetFileFormat(stem + "." + ext) == FormatTable[ext]
  {
    TableKeysPlain();
    GetFileFormatOfExtension(stem, ext);
  }

  /** A name with no '.' is looked up whole: a file named `json` is JSON. */
  lemma GetFileFormatWithoutDot(name: string)
    requires '.' !in name
    ensures Extension(name) == Lower(name)
    ensures GetFileFormat(name) == FormatOf(Lower(name))
  {
    LowerKeepsDots(name);
    LastPieceWithoutSeparator(Lower(name), '.');
  }

  /** A name ending in '.' has the empty extension and is "plaintext". */
  lemma GetFileFormatTrailingDot(name: string)
    requires |name| > 0 && name[|name| - 1] == '.'
    ensures Extension(name) == ""
    ensures GetFileFormat(name) == Plaintext
  {
    var stem := name[..|name| - 1];
    assert name == stem + "." + "";
    GetFileFormatOfExtension(stem, "");
    EmptyNotInTable();
  }

  lemma GetFileFormatPythonExample()
    ensures GetFileFormat("a.py") == "python"
  {
    assert "a.py" == "a" + "." + "py";
    GetFileFormatTable("a", "py");
  }

  // ----- The lookup as the source writes it -----

  /**
   * A value `formatMap[ext]` can produce in JavaScript: a string of the
   * table, or a member every object inherits from `Object.prototype`.
   */
  datatype FormatValue = Text(s: string) | PrototypeMember(key: string)

  /**
   * The inherited `Object.prototype` members whose names are all lower case,
   * so the only ones a lower-cased extension can name: `constructor` (the
   * `Object` function) and `__proto__` (the prototype object). The other
   * inherited members (`toString`, `valueOf`, `hasOwnProperty`, ...) have an
   * upper-case letter.
   */
  const PrototypeKeys: set<string> := {"constructor", "__proto__"}

  /** `formatMap[ext]`: own entries, then inherited members, else `undefined`. */
  function PropertyLookupAsWritten(ext: string): Option<FormatValue>
  {
    if ext in FormatTable then Some(Text(FormatTable[ext]))
    else if ext in PrototypeKeys then Some(PrototypeMember(ext))
    else None
  }

  /** `formatMap[ext] || 'plaintext'`: functions and objects are truthy, `""` and `undefined` are not. */
  function GetFileFormatAsWritten(name: string): FormatValue
  {
    match PropertyLookupAsWritten(Extension(name))
    case None => Text(Plaintext)
    case Some(Text(v)) => if v == "" then Text(Plaintext) else Text(v)
    case Some(PrototypeMember(k)) => PrototypeMember(k)
  }

  /** As written, an extension naming an inherited member yields that member, not a string. */
  lemma GetFileFormatAsWrittenPrototype(name: string)
    requires Extension(name) in PrototypeKeys
    ensures GetFileFormatAsWritten(name) == PrototypeMember(Extension(name))
    ensures GetFileFormat(name) == Plaintext
  {
    PrototypeKeysNotInTable();
  }

  /** For instance `notes.constructor` gets the `Object` function as its format. */
  lemma GetFileFormatAsWrittenConstructor()
    ensures GetFileFormatAsWritten("notes.constructor") == PrototypeMember("constructor")
    ensures GetFileFormat("notes.constructor") == Plaintext
  {
    assert "notes.constructor" == "notes" + "." + "constructor";
    GetFileFormatOfExtension("notes", "constructor");
    assert Lower("constructor") == "constructor";
    GetFileFormatAsWrittenPrototype("notes.constructor");
  }

  /** Off those two extensions, the source's lookup and the corrected one agree. */
  lemma GetFileFormatAsWrittenAgrees(name: string)
    ensures Extension(name) !in PrototypeKeys <==> GetFileFormatAsWritten(name) == Text(GetFileFormat(name))
  {
    PrototypeKeysNotInTable();
    TableValuesNonEmpty();
  }
}
