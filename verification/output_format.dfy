/** Choosing the output encoder (src/simulate.rs, `run`): an explicit
    `--format` wins; otherwise the output path's extension decides. */
module OutputFormat {
  import opened Common

  /** The `--format` values: a PNG raster or a plain-text grid. */
  datatype Format = Png | Dat

  /** What `Path::extension` followed by `OsStr::to_str` yields for the
      output path: no extension, one that is not valid Unicode, or its text. */
  datatype Extension = NoExtension | NotUnicode | Unicode(text: string)

  /** The format an extension names, compared case-sensitively. */
  function Infer(ext: Extension): (f: Option<Format>)
    ensures f == Some(Png) <==> ext == Unicode("png")
    ensures f == Some(Dat) <==> ext == Unicode("dat")
  {
    match ext
    case Unicode(text) =>
      if text == "png" then Some(Png)
      else if text == "dat" then Some(Dat)
      else None
    case _ => None
  }

  /** `format.or_else(|| <inferred from the extension>)`: `None` is the case
      the program reports as an unsupported output format. */
  function Choose(explicit: Option<Format>, ext: Extension): (f: Option<Format>)
    ensures explicit.Some? ==> f == explicit
    ensures f == Some(Png) <==> explicit == Some(Png) || (explicit.None? && ext == Unicode("png"))
    ensures f == Some(Dat) <==> explicit == Some(Dat) || (explicit.None? && ext == Unicode("dat"))
    ensures f.None? <==> explicit.None? && ext != Unicode("png") && ext != Unicode("dat")
  {
    match explicit
    case Some(_) => explicit
    case None => Infer(ext)
  }

  /** The match on the chosen format: the encoder to run, or the error
      "unsupported output format". */
  function Select(explicit: Option<Format>, ext: Extension): (r: Result<Format>)
    ensures r.Failure? ==> r.error == UnsupportedFormat
    ensures r.Success? <==> explicit.Some? || ext == Unicode("png") || ext == Unicode("dat")
    ensures r.Success? ==> Some(r.value) == Choose(explicit, ext)
  {
    match Choose(explicit, ext)
    case Some(f) => Success(f)
    case None => Failure(UnsupportedFormat)
  }

  /** Extensions are matched exactly: an upper-case, missing or non-Unicode
      extension selects nothing, whatever the file holds. */
  lemma OnlyExactExtensionsSelect(ext: Extension)
    requires ext in {Unicode("PNG"), Unicode("DAT"), Unicode("bin"), Unicode(""), NoExtension, NotUnicode}
    ensures Select(None, ext) == Failure(UnsupportedFormat)
  {
  }
}
