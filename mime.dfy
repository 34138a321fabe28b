/** The content type GET and HEAD announce: the last '.'-separated segment of
    the file name, looked up case-sensitively in a fixed table of three types,
    with a generic binary type for anything else. */
module Mime {

  import opened Wrappers
  import opened Text

  const MimeTypes: map<string, string> :=
    map["txt" := "text/plain", "html" := "text/html", "json" := "text/json"]

  const DefaultType: string := "application/octet-stream"

  /** The last element of `name.split("\\.")`. `None` when the split yields no
      element at all (a name made only of dots), where reading the last element
      throws. */
  function Extension(name: string): (r: Option<string>)
    ensures r.None? ==> '.' in name
    ensures r.Some? ==> '.' !in r.value
    ensures r.Some? && '.' in name ==> r.value != ""
  {
    var parts := Split(name, '.');
    if |parts| == 0 then None else Some(parts[|parts| - 1])
  }

  /** A name without a dot is its own extension. */
  lemma ExtensionWithoutDot(name: string)
    requires '.' !in name
    ensures Extension(name) == Some(name)
  {
  }

  /** The extension is what follows the last dot when that is not empty. */
  lemma ExtensionAfterLastDot(stem: string, ext: string)
    requires '.' !in ext && ext != ""
    ensures Extension(stem + "." + ext) == Some(ext)
  {
    var name := stem + "." + ext;
    assert name == stem + ['.'] + ext;
    assert name[|stem|] == '.';
    PiecesAround(stem, ext, '.');
    PiecesOfFree(ext, '.');
    var ps := Pieces(name, '.');
    assert ps[|ps| - 1] == ext;
  }

  /** Trailing dots are ignored: the extension is the segment before them. */
  lemma ExtensionTrailingDot(name: string)
    requires name != ""
    ensures Extension(name + ".") == Extension(name)
  {
    SplitTrailingSeparator(name, '.');
  }

  /** A name made only of dots has no last segment. */
  lemma ExtensionOnlyDots(name: string)
    requires |name| >= 1 && forall i :: 0 <= i < |name| ==> name[i] == '.'
    ensures Extension(name).None?
  {
    SplitOnlySeparators(name, '.');
  }

  /** `MIME_TYPES.getOrDefault(extension, "application/octet-stream")` on the
      extension of `name`; `None` where taking the extension throws. */
  function ContentType(name: string): (r: Option<string>)
    ensures r.None? <==> Extension(name).None?
    ensures r.Some? ==> r.value in {"text/plain", "text/html", "text/json", DefaultType}
    ensures r.Some? ==> '\r' !in r.value
  {
    match Extension(name)
    case None => None
    case Some(ext) => Some(if ext in MimeTypes then MimeTypes[ext] else DefaultType)
  }

  /** The table, read through a file name: each of the three known extensions
      gives its own type, any other extension the generic type. */
  lemma ContentTypeOf(stem: string, ext: string)
    requires '.' !in ext && ext != ""
    ensures ContentType(stem + "." + ext)
         == Some(if ext == "txt" then "text/plain"
                 else if ext == "html" then "text/html"
                 else if ext == "json" then "text/json"
                 else DefaultType)
  {
    ExtensionAfterLastDot(stem, ext);
  }

  /** A name that ends in ".txt" is served as plain text. */
  lemma TextFileType(name: string)
    requires EndsWith(name, ".txt")
    ensures ContentType(name) == Some("text/plain")
  {
    var stem := name[..|name| - 4];
    assert name == stem + "." + "txt";
    ContentTypeOf(stem, "txt");
  }
}
