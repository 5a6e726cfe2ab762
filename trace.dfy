/** The guard structure of the converter's entry points, as the ordered list of
    observable steps each one takes. Every host step (reading a file, decoding an
    image) is taken to complete, so a callback that is passed in is also run. */
module ConverterTrace {
  import opened Wrappers
  import opened JsBuiltins
  import opened Converter

  /** A file chosen in the `<input type="file" />`; its name may be null. */
  datatype SourceFile = SourceFile(name: Option<string>)

  /** The `<input type="file" />` element; its file list may be null. */
  datatype InputElement = InputElement(files: Option<seq<SourceFile>>)

  /** A decoded image, known by its pixel dimensions. */
  datatype DecodedImage = DecodedImage(width: nat, height: nat)

  /** One observable action. Hide and Show set the preview's `style.display`;
      Render allocates a canvas of the given size and requests its data with MIME
      type `mime` (the host may fall back to PNG for a type it cannot encode);
      Download saves the rendered data under `filename`. */
  datatype Step =
    | Hide
    | Read
    | Show
    | Decode
    | Render(mime: string, width: nat, height: nat)
    | Download(filename: string)

  /** What a callback does once invoked, or None when the value passed in is not
      a function. */
  type Callback = Option<seq<Step>>

  /** The file to work on: the first one of the input element's list, when the
      element exists, its list is not null and holds at least one file. */
  function SelectedFile(input: Option<InputElement>): Option<SourceFile> {
    if input.Some? && input.value.files.Some? && |input.value.files.value| > 0
    then Some(input.value.files.value[0])
    else None
  }

  /** `readFile`: reads the file, then runs the callback; does nothing unless the
      callback is a function and the file is present. */
  function ReadFile(file: Option<SourceFile>, cb: Callback): seq<Step> {
    if cb.Some? && file.Some? then [Read] + cb.value else []
  }

  /** `loadImage`: decodes the data, then runs the callback; does nothing unless
      the callback is a function. */
  function LoadImage(cb: Callback): seq<Step> {
    if cb.Some? then [Decode] + cb.value else []
  }

  /** `renderToCanvas`: draws the image on a canvas of its own size and requests
      its data with MIME type "image/" + format, then runs the callback; does
      nothing unless the image and the format are present and the callback is a
      function. */
  function RenderToCanvas(img: Option<DecodedImage>, format: Option<string>, cb: Callback): seq<Step> {
    if img.Some? && format.Some? && cb.Some?
    then [Render("image/" + format.value, img.value.width, img.value.height)] + cb.value
    else []
  }

  /** `startDownload`: saves the data under the given name; it has no guard. */
  function StartDownload(name: string): seq<Step> {
    [Download(name)]
  }

  /** `process`: when a file is selected, read it, decode it, render it in the
      selected format and download it under the derived name. `image` is what the
      host decodes the file into. */
  function Process(input: Option<InputElement>, select: Option<string>, image: DecodedImage): (r: seq<Step>)
    ensures r == [] <==> SelectedFile(input).None?
    ensures forall i :: 0 <= i < |r| ==> !r[i].Hide? && !r[i].Show?
  {
    match SelectedFile(input)
    case None => []
    case Some(file) =>
      var format := SelectFormat(select);
      ReadFile(Some(file), Some(
        LoadImage(Some(
          RenderToCanvas(Some(image), Some(format), Some(
            StartDownload(OutputName(file.name, format))))))))
  }

  /** `preview`: when the preview element exists, hide it; then, when a file is
      selected, read it and show it. It never decodes, renders or downloads; when
      it does anything it hides the preview first, and it reads (then shows)
      exactly when the preview element exists and a file is selected. */
  function Preview(input: Option<InputElement>, previewFound: bool): (r: seq<Step>)
    ensures forall i :: 0 <= i < |r| ==> !r[i].Decode? && !r[i].Render? && !r[i].Download?
    ensures r != [] <==> previewFound
    ensures r != [] ==> r[0] == Hide
    ensures Read in r <==> previewFound && SelectedFile(input).Some?
    ensures Read in r ==> r == [Hide, Read, Show]
  {
    if !previewFound then []
    else
      [Hide] + match SelectedFile(input)
               case None => []
               case Some(file) => ReadFile(Some(file), Some([Show]))
  }

  /** With a selected file, `process` reads, decodes, renders and downloads, once
      each and in that order; the rendering uses a known format and the canvas
      takes the image's size, and the download name is the original name
      followed by "." and that format. */
  lemma ProcessWithFile(input: Option<InputElement>, select: Option<string>, image: DecodedImage)
    requires SelectedFile(input).Some?
    ensures var format := SelectFormat(select);
      var file := SelectedFile(input).value;
      format in KnownFormats &&
      Process(input, select, image) ==
        [Read, Decode, Render("image/" + format, image.width, image.height),
         Download(OutputName(file.name, format))]
  {
    var format := SelectFormat(select);
    var file := SelectedFile(input).value;
    var download := StartDownload(OutputName(file.name, format));
    var render := RenderToCanvas(Some(image), Some(format), Some(download));
    assert render == [Render("image/" + format, image.width, image.height), Download(OutputName(file.name, format))];
    assert LoadImage(Some(render)) == [Decode] + render;
  }

  /** The downloaded file's name splits into the original name's segments and
      one further segment, the selected format. */
  lemma ProcessDownloadName(input: Option<InputElement>, select: Option<string>, image: DecodedImage)
    requires SelectedFile(input).Some?
    ensures var trace := Process(input, select, image);
      |trace| == 4 && trace[3].Download? &&
      Split(trace[3].filename) ==
        Split(NameOrEmpty(SelectedFile(input).value.name)) + [SelectFormat(select)]
  {
    var format := SelectFormat(select);
    KnownFormatsShape(format);
    OutputNameSegments(SelectedFile(input).value.name, format);
  }
}
