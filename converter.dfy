/** The string handling of `Converter.process`: choosing the target format from
    the `<select />` value, and deriving the name of the downloaded file. */
module Converter {
  import opened Wrappers
  import opened JsBuiltins

  /** The formats the converter accepts; the first one is the fallback. */
  const KnownFormats: seq<string> := ["jpeg", "png", "gif", "webp"]

  /** The fallback format, `knownFormats[0]`. */
  const DefaultFormat: string := KnownFormats[0]

  /** The format used for a conversion. `select` is the value of the `<select />`
      element, or None when no such element exists (the value is then taken to be
      the empty string). The value is lower-cased and kept when it is one of the
      known formats; anything else falls back to the default. */
  function SelectFormat(select: Option<string>): (format: string)
    ensures format in KnownFormats
  {
    var tmpFormat := if select.Some? then ToLowerCase(select.value) else "";
    if IndexOf(KnownFormats, tmpFormat) > -1 then tmpFormat else DefaultFormat
  }

  /** A lower-cased value that names a known format is that format; any other
      value, and a missing `<select />`, gives "jpeg". */
  lemma SelectFormatChoice(select: Option<string>)
    ensures select.Some? && ToLowerCase(select.value) in KnownFormats ==>
              SelectFormat(select) == ToLowerCase(select.value)
    ensures select.Some? && ToLowerCase(select.value) !in KnownFormats ==>
              SelectFormat(select) == "jpeg"
    ensures select.None? ==> SelectFormat(select) == "jpeg"
  {
  }

  /** Every known format is written in lower case and contains no dot. */
  lemma KnownFormatsShape(format: string)
    requires format in KnownFormats
    ensures IsLowerCase(format)
    ensures Dot !in format
  {
    assert format == "jpeg" || format == "png" || format == "gif" || format == "webp";
  }

  /** The letter case of the selected value does not matter. */
  lemma SelectFormatIgnoresCase(value: string)
    ensures SelectFormat(Some(value)) == SelectFormat(Some(ToLowerCase(value)))
  {
    LowerCaseIdempotent(value);
  }

  /** Feeding a selected format back in as the `<select />` value selects it again. */
  lemma SelectFormatIdempotent(select: Option<string>)
    ensures SelectFormat(Some(SelectFormat(select))) == SelectFormat(select)
  {
    var format := SelectFormat(select);
    KnownFormatsShape(format);
    LowerCaseFixed(format);
  }

  /** A capitalised format name is accepted in lower case. */
  lemma SelectFormatUpperCase()
    ensures SelectFormat(Some("PNG")) == "png"
    ensures SelectFormat(Some("WebP")) == "webp"
    ensures SelectFormat(Some("bmp")) == "jpeg"
  {
    assert ToLowerCase("PNG") == "png";
    assert ToLowerCase("WebP") == "webp";
    assert ToLowerCase("bmp") == "bmp";
  }

  /** The name of the file read, `""` when the file has no name. */
  function NameOrEmpty(name: Option<string>): string {
    if name.Some? then name.value else ""
  }

  /** The name given to the downloaded file, in closed form: the original name
      kept whole (no extension is removed), a dot, then the format. */
  function OutputName(name: Option<string>, format: string): string {
    NameOrEmpty(name) + [Dot] + format
  }

  /** The filename construction of `process`: split the original name on dots,
      add "image" if the split gave no segment, add the format as a new last
      segment, and join the segments with dots. */
  method OutputFilename(name: Option<string>, format: string) returns (downloadName: string)
    ensures downloadName == OutputName(name, format)
    ensures Dot !in format ==> Split(downloadName) == Split(NameOrEmpty(name)) + [format]
  {
    var filename := Split(NameOrEmpty(name));
    if |filename| == 0 {
      filename := filename + ["image"];
    }
    filename := filename + [format];
    downloadName := Join(filename);
    JoinAppend(Split(NameOrEmpty(name)), format);
    JoinSplit(NameOrEmpty(name));
    if Dot !in format {
      OutputNameSegments(name, format);
    }
  }

  /** The output name splits into the original name's segments and one more
      segment, the format. */
  lemma OutputNameSegments(name: Option<string>, format: string)
    requires Dot !in format
    ensures Split(OutputName(name, format)) == Split(NameOrEmpty(name)) + [format]
    ensures |Split(OutputName(name, format))| == |Split(NameOrEmpty(name))| + 1
  {
    SplitConcat(NameOrEmpty(name), format);
    SplitSingle(format);
  }

  /** A missing or empty name gives "." + format, never "image." + format: the
      split of the empty string has one (empty) segment, so the "image" fallback is
      never taken. */
  lemma EmptyNameOutput(format: string)
    ensures OutputName(None, format) == [Dot] + format
    ensures OutputName(Some(""), format) == [Dot] + format
    ensures Dot !in format ==> Split(OutputName(None, format)) == ["", format]
  {
    if Dot !in format {
      OutputNameSegments(None, format);
    }
  }

  /** Worked cases: an existing extension is kept and an empty name gets no base. */
  lemma OutputNameExamples()
    ensures OutputName(Some("photo.jpg"), "png") == "photo.jpg.png"
    ensures OutputName(None, "gif") == ".gif"
  {
  }

  /** Every dot segment of the original name survives, the last one included:
      a name shaped like "archive.tar.gz" keeps all three segments and gains the
      format as a fourth. */
  lemma ThreeSegmentName(a: string, b: string, c: string, format: string)
    requires Dot !in a && Dot !in b && Dot !in c && Dot !in format
    ensures Split(OutputName(Some(a + [Dot] + b + [Dot] + c), format)) == [a, b, c, format]
  {
    SplitSingle(a);
    SplitSingle(b);
    SplitSingle(c);
    SplitConcat(b, c);
    SplitConcat(a, b + [Dot] + c);
    assert a + [Dot] + b + [Dot] + c == a + [Dot] + (b + [Dot] + c);
    OutputNameSegments(Some(a + [Dot] + b + [Dot] + c), format);
  }
}
