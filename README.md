# Image converter: the conversion endpoint and the client file queue

This project models the two pieces of logic in the image converter that do not
delegate to a library:

- **The conversion endpoint** (`POST /api/convert`, module `Route`, a pure
  function). It resolves the `format` and `quality` defaults, rejects a request
  without a file, and takes the extension from the file name. It then takes one
  of two branches. The HEIC/HEIF branch decodes to JPEG at quality 1 and
  re-encodes; the direct branch encodes the upload. It normalises `jpg` to
  `jpeg` for the encoder key and the MIME type, builds the two success headers,
  and maps each failure point to a status and a message.
  - The HEIC decoder and the raster encoder are foreign libraries, so they are
    parameters (`Codec` oracles that may fail).
  - `Post` returns the response together with the trace of oracle calls it
    made. That trace is what lets the lemmas say which oracle is called, with
    which arguments, and in which order.
- **The client file queue** (`Page.HomePage`, a class). It has:
  - the selected files with their preview URLs;
  - one loading flag per file;
  - the converted results;
  - the `converting` flag;
  - the format and quality settings;
  - the set of object URLs created and not yet revoked.

  Each handler of the page is a method. `Valid()` is the state between
  handlers: one idle flag per file, every URL the page holds is live and held
  by exactly one entry, and every live URL has already been handed out.
  - Object URLs are tokens handed out by a counter.
  - The `fetch` round trip is an oracle `Server` from (file, format, quality)
    to the response body, or `None` for a non-ok answer or an error.
  - `Page.Serve` builds that oracle from the endpoint itself. `Page.ServeDirect`
    and `Page.ServeHeif` connect the two halves.

`Common` holds the JavaScript string operations both files rely on:
`split` on one character, `pop`, ASCII `toLowerCase` and `startsWith`.

Behaviours of the code a reader might not expect, all of which the model keeps:

- A file name without a dot has the whole lowered name as its extension, not
  the empty string. So a file named `heic` goes to the decoder.
- The check at route.js:12 tests the file and the format. But the format has
  already been defaulted with `|| 'jpeg'` at route.js:9, so it is never empty
  there, and only a falsy file field (missing, or empty text) gives the 400.
- An encoder failure in the HEIC/HEIF branch is caught by the same handler as
  a decoder failure, so it is reported as "Failed to decode HEIC/HEIF".
- The format is not restricted to jpg/jpeg/png/webp, and the quality is not
  checked against a range. Any non-empty format other than `jpg` reaches the
  encoder as its key (`jpg` reaches it as `jpeg`), and any non-zero quality is
  passed unchanged. An unsupported format is simply
  an encoder failure.
- No error response carries output bytes: `Error` has no body.
- `convertAllFiles` replaces the results without revoking the URLs of the
  previous results. They stay live, and `ConvertAllFiles` states that.

## Model

| member | source | states |
|---|---|---|
| Common.Split | src/app/api/convert/route.js:18 | `split` on one character: the pieces between separators, in order, never fewer than one |
| Common.Lower | src/app/api/convert/route.js:18 | `toLowerCase` on ASCII letters; the length is kept |
| Common.SplitJoin | src/app/api/convert/route.js:18 | the pieces of `split('.')` contain no dot, and joining them back with the dot gives the original name |
| Common.LowerAt | src/app/api/convert/route.js:18 | `toLowerCase` lowers each character in place and keeps the length |
| Common.LowerChar | src/app/api/convert/route.js:18 | an ASCII capital becomes its lower-case letter (code point + 32); every other character is kept; the result is never a capital |
| Route.ResolveFormat | src/app/api/convert/route.js:9 | a missing or empty format field becomes `jpeg`; any other value is kept; the result is never empty |
| Route.ResolveQuality | src/app/api/convert/route.js:10 | NaN or 0 becomes 90; every other integer, negative or above 100 included, is kept unchanged; the result is never 0 |
| Route.Extension | src/app/api/convert/route.js:18 | the lowered last piece of the name split on dots; it holds no dot and no capital letter |
| Route.ExtensionAfterLastDot | src/app/api/convert/route.js:18 | for a name with a dot, the extension is the lowered text after the last dot |
| Route.ExtensionWithoutDot | src/app/api/convert/route.js:18 | for a name without a dot, the extension is the whole lowered name, not empty |
| Route.EncoderKey | src/app/api/convert/route.js:31 | the key is `jpeg` exactly when the format is `jpg` or `jpeg`; every format other than `jpg` is kept; the key is never `jpg` |
| Route.Headers | src/app/api/convert/route.js:48-56 | the two success headers, Content-Type then Content-Disposition; the MIME type starts with `image/` and is `image/jpeg` exactly for `jpg` and `jpeg` |
| Route.Post | src/app/api/convert/route.js:5-63 | the whole handler: a parse failure answers 500 "Internal Server Error" with no oracle call; otherwise the parsed form is handled; at most two oracle calls are made, every error is 400 or 500, and a success always ends with an encoder call |
| Route.HandleForm | src/app/api/convert/route.js:8-46 | the handler on a parsed form: defaults, then 400 exactly for a falsy file field, then the HEIC/HEIF or the direct branch by extension; at most two oracle calls, and every error is 400 or 500 |
| Route.ConvertHeif | src/app/api/convert/route.js:22-36 | the decoder is called first on the input with `JPEG` and quality 1; the result is a success exactly when the decode and then the encode of its output (normalised key, given quality) both succeed, with the encoder's output and the format's headers; every failure is 500 "Failed to decode HEIC/HEIF" |
| Route.ConvertDirect | src/app/api/convert/route.js:37-46 | the one call is the encoder on the input with the normalised key and the quality; success exactly when it succeeds, with its output and the format's headers; otherwise 500 "Failed to convert image" |
| Route.OnlyMissingFileIsBadRequest | src/app/api/convert/route.js:9-14 | status 400 happens exactly when the form parsed and its file field is falsy; it carries "File and format are required" and makes no oracle call; the format field never causes it |
| Route.HeaderValues | src/app/api/convert/route.js:48-56 | a success has exactly two headers: Content-Type `image/jpeg` for `jpg` and `image/<format>` otherwise, and Content-Disposition `attachment; filename="converted.<format>"` with the format as requested |
| Route.DecoderCalledIffHeif | src/app/api/convert/route.js:22-28 | the decoder is called exactly when an uploaded file has extension heic or heif; then it is the first call, on the uploaded bytes, with `JPEG` and quality 1, and every later call is an encoder call |
| Route.EncoderCall | src/app/api/convert/route.js:22-46 | the encoder is called at most once, always with the normalised key and the resolved quality; its input is the decoder's output in the HEIC/HEIF branch and the uploaded bytes otherwise; it is called exactly when there is an upload and, in the HEIC/HEIF branch, the decoder succeeded |
| Route.ErrorMapping | src/app/api/convert/route.js:12-62 | the response is an error exactly when there is no upload, the HEIC/HEIF decode or re-encode fails, or the direct encode fails; parse failure and a text file field give 500 "Internal Server Error", a falsy file gives 400, any HEIC/HEIF failure gives 500 "Failed to decode HEIC/HEIF", and a direct encode failure gives 500 "Failed to convert image" |
| Route.SuccessResponse | src/app/api/convert/route.js:30-57 | a success answers 200 to an upload; its body is the output of the last call, which is an encoder call; its headers are those of the resolved format |
| Route.JpgAndJpegAgree | src/app/api/convert/route.js:31-49 | asking for `jpg` or `jpeg` makes the same oracle calls and gives the same outcome, body and Content-Type `image/jpeg`; only the attachment name differs |
| Route.JpgAndJpegHeaders | src/app/api/convert/route.js:48-56 | the header values for `jpg` and for `jpeg`, read back by name |
| Route.Defaults | src/app/api/convert/route.js:9-10 | a missing or empty format field behaves exactly as `jpeg`; a missing, non-numeric or zero quality behaves exactly as 90 |
| Route.CorruptHeicScenario | src/app/api/convert/route.js:22-36 | a file named `<anything>.heic` whose bytes the decoder rejects is answered 500 "Failed to decode HEIC/HEIF" |
| Route.UpperCaseHeifScenario | src/app/api/convert/route.js:18-28 | a file named `<anything>.HEIF` is decoded first: the extension is lowered before the comparison |
| Route.DotlessHeicScenario | src/app/api/convert/route.js:18-28 | a file named just `heic` is decoded first |
| Route.WebpScenario | src/app/api/convert/route.js:37-57 | a PNG upload converted to webp at quality 80 answers 200 with the encoder's output and Content-Type `image/webp` |
| Page.ConvertedName | src/app/page.js:75 | the converted name: a dot-free prefix of the original name, then a dot, then the format |
| Page.WithPreviews | src/app/page.js:20-25 | the files `onDrop` appends: one entry per accepted file, with a preview URL minted in turn for each image |
| Page.Attempt | src/app/page.js:66-84 | one `convertFile` outcome: null exactly when the request fails; otherwise the response body as the blob, the given new URL, the chosen format, the original name and both sizes |
| Page.ConvertAll | src/app/page.js:94-104 | what the loop stores: the successful conversions in file order, never more than the files |
| Page.Serve | src/app/page.js:56-68 | the request sent to the conversion endpoint itself: it succeeds exactly when the endpoint answers 200 |
| Page.ConvertedNameKeepsStem | src/app/page.js:75 | the converted name keeps the text before the first dot, then a dot and the chosen format |
| Page.ConvertedNameWithoutDot | src/app/page.js:75 | a name without a dot is kept whole before the format |
| Page.WithPreviewsKeepsFiles | src/app/page.js:20-25 | the drop keeps the accepted files and their order, and attaches a preview exactly to the files whose type starts with `image/` |
| Page.WithPreviewsMintsFresh | src/app/page.js:20-25 | the preview URLs of a drop are fresh: at least the counter, below its new value, and increasing along the list, so no two files share one |
| Page.ConvertAllUrls | src/app/page.js:94-104 | a run keeps at most one result per file, and the k-th result holds the k-th URL handed out during the run |
| Page.ConvertAllOrigins | src/app/page.js:94-104 | the results are exactly the non-null conversions, in file order: the k-th result is the conversion of the k-th successful file, the source indices increase, and every file whose request succeeded is represented |
| Page.DropKeepsUrlsHeld | src/app/page.js:19-26 | appending a drop's files keeps every URL the page holds live and held once |
| Page.ServeDirect | src/app/page.js:56-68 | a request for a non-HEIC file sent to the endpoint succeeds exactly with the encoder's output on the file's bytes, under the normalised key of the resolved format and the resolved quality |
| Page.ServeHeif | src/app/page.js:56-68 | a request for a HEIC/HEIF file sent to the endpoint decodes first and then encodes the JPEG; either failure makes the request fail |
| Page.HomePage.constructor | src/app/page.js:8-13 | the page starts with no files, no results, no flags, format `jpg`, quality 90 and no live URLs |
| Page.HomePage.SetFormat | src/app/page.js:164 | the format select replaces the format |
| Page.HomePage.SetQuality | src/app/page.js:181 | the quality slider replaces the quality |
| Page.HomePage.ResetLoading | src/app/page.js:15-17 | whenever the files change, the loading flags become one false flag per file |
| Page.HomePage.AttachPreviews | src/app/page.js:20-25 | the mapped files are the accepted files with previews for the images, minted in order; one URL is created per image and becomes live |
| Page.HomePage.OnDrop | src/app/page.js:19-27 | the accepted files, with their previews, are appended after the existing ones; the flags are reset; the results, settings and `converting` are unchanged; the page stays valid |
| Page.HomePage.RemoveFile | src/app/page.js:37-46 | exactly the file at the index is spliced out, the others keep their order, its preview URL is revoked if it had one, the flags are reset, and nothing else changes |
| Page.HomePage.Send | src/app/page.js:55-68 | the request is only sent while the file's loading flag is set, and carries the file, the page's format and quality |
| Page.HomePage.ConvertFile | src/app/page.js:48-92 | the result is null when the request fails and otherwise the converted file, named from the original's stem, holding a new live URL; the file's flag ends false and every other flag is unchanged |
| Page.HomePage.ConvertEach | src/app/page.js:97-101 | the loop converts the files one at a time in index order and collects exactly the non-null results |
| Page.HomePage.ConvertAllFiles | src/app/page.js:94-104 | with no files nothing changes; otherwise the results become exactly the run's non-null results in order, `converting` ends false, the run's URLs become live, the old results' URLs stay live, and the files are unchanged |
| Page.HomePage.ClearAllFiles | src/app/page.js:121-132 | every preview URL and every result URL is revoked, and the files, the results and the flags are emptied |
| Page.HomePage.ClearConverted | src/app/page.js:134-139 | every result URL is revoked and the results are emptied; the files, their previews and the flags are unchanged |

## Left out

- Multipart parsing (`request.formData()`), `parseInt`'s string rules,
  `Buffer` conversion and `NextResponse` construction: the request arrives
  already parsed as optional fields. A failed parse is one `Malformed` case.
- A `File` object sent as the `format` field: the format is modelled as text.
- The HEIC decoder and the raster encoder are oracles. Which format names the
  encoder accepts is not visible, so an unsupported format is an oracle failure.
- `Common.Lower`: models `toLowerCase` on ASCII letters only. No non-ASCII name
  can lower to `heic` or `heif` through the ASCII rules, but other non-ASCII
  characters are kept unchanged where JavaScript would lower them.
- `console.error` logging.
- Asynchronous I/O, `fetch` and React's state batching and effect scheduling:
  updates are immediate, the awaited requests happen one after another, and the
  loading-flag reset runs right after each change to the files.
- `Page.HomePage.RemoveFile`: requires an index inside the list. The page only
  passes the index of a rendered file; an index outside would throw in
  JavaScript.
- Interleaving of handlers: each handler runs to completion before the next
  one starts. On the page, only Convert All is disabled while `convertAllFiles`
  runs (page.js:233). Dropping files, Remove, Clear All (page.js:238-243),
  Clear Converted (page.js:315) and the format and quality controls all stay
  usable between its awaited requests. After a Remove or Clear All in that
  window, the loop keeps converting the list it captured when it started, while
  `files` and `loadingItems` change under it. None of this is modelled.
- `Page.HomePage.OnDrop`: requires `Valid()`, so every loading flag is idle on
  entry; it is not modelled in the middle of a conversion run.
- `Page.HomePage.RemoveFile`: requires `Valid()`; same reason.
- `Page.HomePage.ConvertFile`: requires `Valid()`, so no other request is in
  flight when it starts.
- `Page.HomePage.ConvertAllFiles`: requires `Valid()`; no other handler runs
  during the loop.
- `Page.HomePage.ClearAllFiles`: requires `Valid()`; it is not modelled in the
  middle of a conversion run.
- `Page.HomePage.ClearConverted`: requires `Valid()`; same reason.
- `downloadFile` and `downloadAllConverted` (DOM anchors and `setTimeout`), the
  drop zone's accept filter, JSX rendering, the slider bounds, and the KB/MB size
  display (floating point).
