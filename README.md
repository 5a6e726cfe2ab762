# ImgConverter: format selection, output file name and step order

ImgConverter is a browser image converter. Its `Converter` class reads an image
file chosen in an `<input type="file" />`, decodes it, draws it on a canvas,
re-encodes the canvas in a format chosen in a `<select />` and downloads the
result. Almost all of this is host glue; what this project models and proves is:

- **Format selection** (`Converter.process`): the `<select />` value, or the empty
  string when the element is missing, is lower-cased and accepted only when it is
  one of `jpeg`, `png`, `gif`, `webp`; otherwise the format is `jpeg`.
- **Output file name** (`Converter.process`): the original name (`""` when null) is
  split on `.`, `image` is pushed when the split is empty, the format is pushed, and
  the segments are joined with `.`.
- **Step order** of the entry points `process` and `preview` and of the guards in
  `readFile`, `loadImage` and `renderToCanvas`, as the list of observable steps
  (hide, read, show, decode, render, download) each input situation produces.

Modules:

- `Wrappers` (`wrappers.dfy`): `Option`, standing for every value the source
  compares with `null` (DOM lookups, the file list, the file name).
- `JsBuiltins` (`js_builtins.dfy`): the JavaScript built-ins the code relies on:
  `toLowerCase` (ASCII case folding), `Array.prototype.indexOf`, and `split` /
  `join` on `"."`, with the split/join round trips.
- `Converter` (`converter.dfy`): `SelectFormat`, the output name `OutputName` and the
  method `OutputFilename` that builds it the way the source does (split, push, join).
- `ConverterTrace` (`trace.dfy`): the entry points and their guards as step lists.

The file name is derived as the code does it, which is not what the code's shape
suggests. The `pop()` that would drop the old extension is commented out
(Converter.ts:50), so `photo.jpg` converted to `png` is saved as `photo.jpg.png`,
not `photo.png`. The `length == 0` test (Converter.ts:51) can never succeed,
because splitting the empty string gives one empty segment, so an empty name
gives `.gif`, not `image.gif`. `OutputFilename`, `OutputNameExamples` and
`EmptyNameOutput` state this behaviour.

## Model

| member | source | states |
|---|---|---|
| JsBuiltins.LowerChar | Converter.ts:36 | the folded character is never an ASCII capital; other characters are unchanged; a capital maps to its lower-case letter |
| JsBuiltins.ToLowerCase | Converter.ts:36 | `toLowerCase` keeps the length, folds every character in place, and leaves no capital letter |
| JsBuiltins.LowerCaseFixed | Converter.ts:36 | a string with no capital letter is left unchanged by lower-casing |
| JsBuiltins.LowerCaseIdempotent | Converter.ts:36 | lower-casing twice is the same as lower-casing once |
| JsBuiltins.IndexOf | Converter.ts:37 | `indexOf` returns -1 exactly when the value is absent, otherwise an index holding the value with no earlier occurrence |
| JsBuiltins.Split | Converter.ts:49 | `split(".")` never returns an empty array, returns one more segment than the string has dots, and no segment contains a dot |
| JsBuiltins.Join | Converter.ts:55 | a non-empty list joins to a string as long as its segments together plus one dot fewer than it has segments; its round trips with `split` are JoinSplit and SplitJoin, and the effect of a push is JoinAppend |
| JsBuiltins.JoinAppend | Converter.ts:52-55 | pushing a segment onto a non-empty list and joining adds `"."` and that segment to the old join |
| JsBuiltins.JoinSplit | Converter.ts:49-55 | joining the split segments with `"."` gives back the original string exactly |
| JsBuiltins.SplitSingle | Converter.ts:49 | a string splits into itself alone exactly when it contains no dot |
| JsBuiltins.SplitConcat | Converter.ts:49 | splitting `a + "." + b` gives the segments of `a` followed by those of `b` |
| JsBuiltins.SplitJoin | Converter.ts:49-55 | splitting the join of a non-empty list of dot-free segments gives back that list |
| Converter.SelectFormat | Converter.ts:34-37 | the selected format is always one of `jpeg`, `png`, `gif`, `webp` |
| Converter.SelectFormatChoice | Converter.ts:34-37 | a lower-cased value naming a known format is chosen; any other value, and a missing `<select />`, gives `jpeg` |
| Converter.KnownFormatsShape | Converter.ts:34 | every known format is lower case and dot-free |
| Converter.SelectFormatIgnoresCase | Converter.ts:36 | the letter case of the `<select />` value does not change the result |
| Converter.SelectFormatIdempotent | Converter.ts:36-37 | passing a selected format back in as the value selects the same format |
| Converter.SelectFormatUpperCase | Converter.ts:36-37 | `PNG` gives `png`, `WebP` gives `webp`, `bmp` gives `jpeg` |
| Converter.NameOrEmpty | Converter.ts:49 | definition: the name, or `""` when null |
| Converter.OutputName | Converter.ts:49-55 | closed form: name + `"."` + format; OutputFilename is proved equal to it, and OutputNameSegments, EmptyNameOutput and ThreeSegmentName are proved about it |
| Converter.OutputFilename | Converter.ts:49-55 | split, push and join produce the original name (`""` if null), `"."` and the format; with a dot-free format its segments are the name's followed by the format |
| Converter.OutputNameSegments | Converter.ts:49-52 | the output name has exactly one more segment than the original name, and that segment is the format |
| Converter.EmptyNameOutput | Converter.ts:49-51 | for every format, a null or empty name gives `"." + format` and, for a dot-free format, segments `""` and the format; the `image` fallback is never used |
| Converter.OutputNameExamples | Converter.ts:49-55 | `photo.jpg` with `png` gives `photo.jpg.png`; a null name with `gif` gives `.gif` |
| Converter.ThreeSegmentName | Converter.ts:49-55 | a name shaped like `archive.tar.gz` keeps all three segments and gains the format as a fourth |
| ConverterTrace.SelectedFile | Converter.ts:31 | definition of the guard at line 31 as written: the first file, when the element exists and its list is not null and not empty; what `process` and `preview` do with it is proved by Process, ProcessWithFile and Preview |
| ConverterTrace.ReadFile | Converter.ts:93-101 | definition of the guard at line 95 as written: a read followed by the callback's steps, or nothing; what `process` does with it is proved by Process and ProcessWithFile, what `preview` does by Preview |
| ConverterTrace.LoadImage | Converter.ts:108-116 | definition of the guard at line 110 as written: a decode followed by the callback's steps, or nothing; its use in `process` is proved by Process and ProcessWithFile |
| ConverterTrace.RenderToCanvas | Converter.ts:124-141 | definition of the guard at line 126 as written: a render on a canvas of the image's size requesting MIME `"image/" + format`, followed by the callback's steps, or nothing; its use in `process` is proved by ProcessWithFile |
| ConverterTrace.StartDownload | Converter.ts:148-155 | definition: one download under the given name, with no guard; its use in `process` is proved by ProcessWithFile and ProcessDownloadName |
| ConverterTrace.Process | Converter.ts:27-60 | `process` performs no step at all exactly when no file is selected, and never hides or shows the preview |
| ConverterTrace.ProcessWithFile | Converter.ts:27-60 | with a file, `process` reads, decodes, renders with MIME `"image/" + format` on a canvas of the image's size, and downloads under the derived name, once each and in that order, with a known format |
| ConverterTrace.ProcessDownloadName | Converter.ts:46-55 | the download name splits into the original name's segments plus the selected format |
| ConverterTrace.Preview | Converter.ts:67-86 | `preview` never decodes, renders or downloads; it hides the image first, and reads then shows exactly when the preview element exists and a file is selected |

## Left out

- DOM lookups (`document.getElementById`, Converter.ts:30, 35, 70, 74): their results are `Option` inputs of the model.
- `""+value` and `""+file.name` (Converter.ts:36, 49): both values are already strings, so the conversion is the identity.
- ToLowerCase: folds the ASCII letters `A`-`Z` only, while JavaScript's `toLowerCase` folds every Unicode letter. The format chosen is the same either way: in Unicode only the Kelvin sign (to `k`) and the capital dotted I (to `i` followed by a combining dot) lower-case to ASCII letters, and neither can produce one of the four format names.
- ReadFile: the `file instanceof File` test (Converter.ts:95) is merged with the `null` test: a present file is taken to be a `File`, since `process` and `preview` only ever pass `inputElt.files[0]`.
- RenderToCanvas: the `img instanceof HTMLImageElement` test (Converter.ts:126) is merged with the `null` test: a present image is taken to be an image element, since `process` only passes the `Image` created by `loadImage`.
- File reading, image decoding, canvas drawing and `toDataURL` (Converter.ts:93-141): host codecs. Image bytes, pixels and data URLs are opaque; only the step, the canvas size and the requested MIME string `"image/" + format` are modelled; `toDataURL` may fall back to PNG for a type the browser cannot encode, which the model does not capture.
- The anchor click and `remove()` of `startDownload` (Converter.ts:148-155): browser I/O, modelled as one `Download` step carrying the file name.
- The `style.display` and `src` updates of `preview` (Converter.ts:73, 81-82): modelled as the `Hide` and `Show` steps only.
- Asynchronous callback scheduling, and host failures after which a callback never fires: the trace assumes every read and decode completes once.
- `console.log` of the file name and data (Converter.ts:53-54): diagnostic output.
