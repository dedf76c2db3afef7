/** The conversion endpoint (`POST /api/convert`): one request in, one response out.
    The HEIC decoder and the raster encoder are foreign libraries, so they are passed
    in as possibly-failing oracles; every call made to them is recorded in the
    exchange, in order, so that the lemmas can say which oracle was called with what. */
module Route {
  import opened Common

  /** A decoder or encoder: (input bytes, format name, quality) to bytes, or a failure. */
  type Codec = (seq<byte>, string, int) -> Option<seq<byte>>

  /** What `formData.get('file')` returned: nothing, a plain text field, or an uploaded file. */
  datatype FileField = Absent | Text(text: string) | Blob(name: string, bytes: seq<byte>)

  /** The parsed form. `quality` is what `parseInt` made of the field: None for NaN. */
  datatype Form = Form(file: FileField, format: Option<string>, quality: Option<int>)

  /** The request body: either multipart parsing failed, or it gave a form. */
  datatype Request = Malformed | Parsed(form: Form)

  datatype Header = Header(name: string, value: string)

  /** A binary success, or a JSON `{ error: message }` failure with its status. */
  datatype Response =
    | Success(body: seq<byte>, headers: seq<Header>)
    | Error(status: int, message: string)

  /** One call to an oracle, with the arguments it received. */
  datatype Call =
    | DecodeCall(input: seq<byte>, format: string, quality: int)
    | EncodeCall(input: seq<byte>, key: string, quality: int)

  datatype Exchange = Exchange(response: Response, calls: seq<Call>)

  const RequiredMessage := "File and format are required"
  const DecodeFailedMessage := "Failed to decode HEIC/HEIF"
  const ConvertFailedMessage := "Failed to convert image"
  const InternalMessage := "Internal Server Error"

  function StatusOf(r: Response): int
  {
    if r.Success? then 200 else r.status
  }

  /** `formData.get('format') || 'jpeg'`: a missing or empty field means jpeg. */
  function ResolveFormat(field: Option<string>): (format: string)
    ensures format != ""
    ensures field.Some? && field.value != "" ==> format == field.value
    ensures field.None? || field.value == "" ==> format == "jpeg"
  {
    match field
    case Some(f) => if f != "" then f else "jpeg"
    case None => "jpeg"
  }

  /** `parseInt(...) || 90`: NaN and 0 both fall back to 90; every other value,
      in range or not, is kept. */
  function ResolveQuality(parsed: Option<int>): (quality: int)
    ensures quality != 0
    ensures parsed.Some? && parsed.value != 0 ==> quality == parsed.value
    ensures parsed.None? || parsed.value == 0 ==> quality == 90
  {
    match parsed
    case Some(q) => if q != 0 then q else 90
    case None => 90
  }

  /** JavaScript truthiness of the file field: absent and the empty string are falsy. */
  predicate Present(file: FileField)
  {
    match file
    case Absent => false
    case Text(t) => t != ""
    case Blob(_, _) => true
  }

  /** `name.split('.').pop().toLowerCase()`: holds no dot and no capital letter. */
  function Extension(name: string): (ext: string)
    ensures '.' !in ext
    ensures forall i :: 0 <= i < |ext| ==> !('A' <= ext[i] <= 'Z')
  {
    var pieces := Split(name, '.');
    SplitJoin(name, '.');
    LowerAt(Last(pieces));
    Lower(Last(pieces))
  }

  /** With at least one dot, the extension is the lowered text after the last one. */
  lemma ExtensionAfterLastDot(stem: string, suffix: string)
    requires '.' !in suffix
    ensures Extension(stem + "." + suffix) == Lower(suffix)
  {
    SplitLastPiece(stem, '.', suffix);
  }

  /** Without a dot, the extension is the whole lowered name, not the empty string. */
  lemma ExtensionWithoutDot(name: string)
    requires '.' !in name
    ensures Extension(name) == Lower(name)
  {
    SplitWithoutSeparator(name, '.');
  }

  predicate IsHeif(ext: string)
  {
    ext == "heic" || ext == "heif"
  }

  /** `format === 'jpg' ? 'jpeg' : format`: the encoder method name and MIME subtype. */
  function EncoderKey(format: string): (key: string)
    ensures key != "jpg"
    ensures key == "jpeg" <==> format == "jpg" || format == "jpeg"
    ensures format != "jpg" ==> key == format
  {
    if format == "jpg" then "jpeg" else format
  }

  /** The success headers: the MIME type is `image/jpeg` exactly for `jpg` and `jpeg`,
      and the attachment is named after the format as requested. */
  function Headers(format: string): (headers: seq<Header>)
    ensures |headers| == 2
    ensures headers[0].name == "Content-Type" && headers[1].name == "Content-Disposition"
    ensures StartsWith(headers[0].value, "image/")
    ensures headers[0].value == "image/jpeg" <==> format == "jpg" || format == "jpeg"
  {
    var mime := "image/" + EncoderKey(format);
    assert mime[6..] == EncoderKey(format);
    assert mime[..6] == "image/";

    [ Header("Content-Type", "image/" + EncoderKey(format)),
      Header("Content-Disposition", "attachment; filename=\"converted." + format + "\"") ]
  }

  /** The value of the first header with this name, if any. */
  function HeaderValue(headers: seq<Header>, name: string): Option<string>
  {
    if headers == [] then None
    else if headers[0].name == name then Some(headers[0].value)
    else HeaderValue(headers[1..], name)
  }

  /** The handler: defaults, the required-field check, the HEIC/HEIF branch (decode to
      JPEG at quality 1, then encode) or the direct branch (encode the upload), and the
      success headers. Each failure point has its own status and message. */
  function Post(request: Request, decode: Codec, encode: Codec): (x: Exchange)
    ensures |x.calls| <= 2
    ensures x.response.Error? ==> x.response.status == 400 || x.response.status == 500
    ensures x.response.Success? ==> x.calls != [] && x.calls[|x.calls| - 1].EncodeCall?
    ensures request.Malformed? ==> x == Exchange(Error(500, InternalMessage), [])
  {
    match request
    case Malformed => Exchange(Error(500, InternalMessage), [])
    case Parsed(form) => HandleForm(form, decode, encode)
  }

  /** The handler once the form is parsed: 400 exactly for a falsy file field. */
  function HandleForm(form: Form, decode: Codec, encode: Codec): (x: Exchange)
    ensures |x.calls| <= 2
    ensures StatusOf(x.response) == 400 <==> !Present(form.file)
    ensures x.response.Error? ==> x.response.status == 400 || x.response.status == 500
    ensures x.response.Success? ==> x.calls != [] && x.calls[|x.calls| - 1].EncodeCall?
  {
    var format := ResolveFormat(form.format);
    var quality := ResolveQuality(form.quality);
    if !Present(form.file) || format == "" then
      Exchange(Error(400, RequiredMessage), [])
    else if form.file.Text? then
      // a text field has no arrayBuffer(): the outer catch answers
      Exchange(Error(500, InternalMessage), [])
    else if IsHeif(Extension(form.file.name)) then
      ConvertHeif(form.file.bytes, format, quality, decode, encode)
    else
      ConvertDirect(form.file.bytes, format, quality, encode)
  }

  /** The HEIC/HEIF branch: decode to JPEG at quality 1, then encode; one catch for both. */
  function ConvertHeif(input: seq<byte>, format: string, quality: int, decode: Codec, encode: Codec): (x: Exchange)
    ensures 1 <= |x.calls| <= 2 && x.calls[0] == DecodeCall(input, "JPEG", 1)
    ensures x.response.Success? <==>
              decode(input, "JPEG", 1).Some? &&
              encode(decode(input, "JPEG", 1).value, EncoderKey(format), quality).Some?
    ensures x.response.Error? ==> x.response == Error(500, DecodeFailedMessage)
    ensures x.response.Success? ==>
              && x.calls == [x.calls[0], EncodeCall(decode(input, "JPEG", 1).value, EncoderKey(format), quality)]
              && encode(x.calls[1].input, x.calls[1].key, x.calls[1].quality) == Some(x.response.body)
              && x.response.headers == Headers(format)
  {
    var decodeCall := DecodeCall(input, "JPEG", 1);
    match decode(input, "JPEG", 1)
    case None => Exchange(Error(500, DecodeFailedMessage), [decodeCall])
    case Some(jpeg) =>
      var key := EncoderKey(format);
      var calls := [decodeCall, EncodeCall(jpeg, key, quality)];
      match encode(jpeg, key, quality)
      case None => Exchange(Error(500, DecodeFailedMessage), calls)
      case Some(output) => Exchange(Success(output, Headers(format)), calls)
  }

  /** The direct branch: encode the uploaded bytes. */
  function ConvertDirect(input: seq<byte>, format: string, quality: int, encode: Codec): (x: Exchange)
    ensures x.calls == [EncodeCall(input, EncoderKey(format), quality)]
    ensures x.response.Success? <==> encode(input, EncoderKey(format), quality).Some?
    ensures x.response.Error? ==> x.response == Error(500, ConvertFailedMessage)
    ensures x.response.Success? ==>
              Some(x.response.body) == encode(input, EncoderKey(format), quality)
              && x.response.headers == Headers(format)
  {
    var key := EncoderKey(format);
    var calls := [EncodeCall(input, key, quality)];
    match encode(input, key, quality)
    case None => Exchange(Error(500, ConvertFailedMessage), calls)
    case Some(output) => Exchange(Success(output, Headers(format)), calls)
  }

  // ---------------------------------------------------------------------------
  // Properties of the handler

  predicate UploadsFile(request: Request)
  {
    request.Parsed? && request.form.file.Blob?
  }

  predicate UploadsHeif(request: Request)
  {
    UploadsFile(request) && IsHeif(Extension(request.form.file.name))
  }

  /** The only 400 is a falsy file field, with the one message; it makes no oracle call.
      The format field never causes it. */
  lemma OnlyMissingFileIsBadRequest(request: Request, decode: Codec, encode: Codec)
    ensures var x := Post(request, decode, encode);
      (StatusOf(x.response) == 400 <==> request.Parsed? && !Present(request.form.file))
      && (StatusOf(x.response) == 400 ==> x.response == Error(400, RequiredMessage) && x.calls == [])
  {
  }

  /** The two success headers, read back by name. */
  lemma HeaderValues(format: string)
    ensures |Headers(format)| == 2
    ensures HeaderValue(Headers(format), "Content-Type") ==
              Some(if format == "jpg" then "image/jpeg" else "image/" + format)
    ensures HeaderValue(Headers(format), "Content-Disposition") ==
              Some("attachment; filename=\"converted." + format + "\"")
  {
    assert "Content-Type"[8] != "Content-Disposition"[8];
    assert "image/" + "jpeg" == "image/jpeg";
  }

  /** The decoder is called exactly when an uploaded file has a heic or heif extension:
      once, first, on the uploaded bytes, asking for JPEG at quality 1. */
  lemma DecoderCalledIffHeif(request: Request, decode: Codec, encode: Codec)
    ensures var calls := Post(request, decode, encode).calls;
      ((exists i :: 0 <= i < |calls| && calls[i].DecodeCall?) <==> UploadsHeif(request))
      && (UploadsHeif(request) ==>
            |calls| >= 1 && calls[0] == DecodeCall(request.form.file.bytes, "JPEG", 1)
            && forall i :: 1 <= i < |calls| ==> calls[i].EncodeCall?)
  {
    var calls := Post(request, decode, encode).calls;
    if UploadsHeif(request) {
      var form := request.form;
      assert calls == ConvertHeif(form.file.bytes, ResolveFormat(form.format),
                                  ResolveQuality(form.quality), decode, encode).calls;
      assert calls[0].DecodeCall?;
    } else if UploadsFile(request) {
      var form := request.form;
      assert calls == ConvertDirect(form.file.bytes, ResolveFormat(form.format),
                                    ResolveQuality(form.quality), encode).calls;
    } else {
      assert calls == [];
    }
  }

  /** The encoder is called at most once, always with the normalised key and the resolved
      quality; its input is the decoder's output in the HEIC/HEIF branch and the uploaded
      bytes otherwise. It is skipped only when there is no upload or the decoder failed. */
  lemma EncoderCall(request: Request, decode: Codec, encode: Codec)
    ensures var calls := Post(request, decode, encode).calls;
      (forall i, j :: 0 <= i < j < |calls| ==> !(calls[i].EncodeCall? && calls[j].EncodeCall?))
      && ((exists i :: 0 <= i < |calls| && calls[i].EncodeCall?) <==>
            UploadsFile(request) &&
            (UploadsHeif(request) ==> decode(request.form.file.bytes, "JPEG", 1).Some?))
      && (forall i :: 0 <= i < |calls| && calls[i].EncodeCall? ==>
            var form := request.form;
            calls[i].key == EncoderKey(ResolveFormat(form.format))
            && calls[i].quality == ResolveQuality(form.quality)
            && calls[i].input == (if UploadsHeif(request)
                                  then decode(form.file.bytes, "JPEG", 1).value
                                  else form.file.bytes))
  {
    var calls := Post(request, decode, encode).calls;
    if UploadsHeif(request) {
      var form := request.form;
      var input := form.file.bytes;
      assert calls == ConvertHeif(input, ResolveFormat(form.format),
                                  ResolveQuality(form.quality), decode, encode).calls;
      if decode(input, "JPEG", 1).Some? {
        assert calls[1].EncodeCall?;
      }
    } else if UploadsFile(request) {
      var form := request.form;
      assert calls == ConvertDirect(form.file.bytes, ResolveFormat(form.format),
                                    ResolveQuality(form.quality), encode).calls;
      assert calls[0].EncodeCall?;
    } else {
      assert calls == [];
    }
  }

  /** Every failure response, with the branch it comes from. Any failure in the HEIC/HEIF
      branch, the encoder's included, is reported as a decode failure. */
  lemma ErrorMapping(request: Request, decode: Codec, encode: Codec)
    ensures var r := Post(request, decode, encode).response;
      var form := if request.Parsed? then request.form else Form(Absent, None, None);
      var q := ResolveQuality(form.quality);
      var key := EncoderKey(ResolveFormat(form.format));
      r.Error? <==>
        || !UploadsFile(request)
        || (UploadsHeif(request) &&
              (decode(form.file.bytes, "JPEG", 1).None? ||
               encode(decode(form.file.bytes, "JPEG", 1).value, key, q).None?))
        || (UploadsFile(request) && !UploadsHeif(request) && encode(form.file.bytes, key, q).None?)
    ensures var r := Post(request, decode, encode).response;
      r.Error? ==>
        && (request.Malformed? ==> r == Error(500, InternalMessage))
        && (request.Parsed? && request.form.file.Text? && request.form.file.text != "" ==>
              r == Error(500, InternalMessage))
        && (request.Parsed? && !Present(request.form.file) ==> r == Error(400, RequiredMessage))
        && (UploadsHeif(request) ==> r == Error(500, DecodeFailedMessage))
        && (UploadsFile(request) && !UploadsHeif(request) ==> r == Error(500, ConvertFailedMessage))
  {
    if UploadsFile(request) {
      var form := request.form;
      var format, quality := ResolveFormat(form.format), ResolveQuality(form.quality);
      if UploadsHeif(request) {
        assert Post(request, decode, encode) == ConvertHeif(form.file.bytes, format, quality, decode, encode);
      } else {
        assert Post(request, decode, encode) == ConvertDirect(form.file.bytes, format, quality, encode);
      }
    }
  }

  /** A success answers 200 with the encoder's output as the body (the last call made)
      and exactly two headers: the MIME type of the normalised format, and an attachment
      named after the format as requested. */
  lemma SuccessResponse(request: Request, decode: Codec, encode: Codec)
    ensures var x := Post(request, decode, encode);
      x.response.Success? ==>
        && UploadsFile(request)
        && StatusOf(x.response) == 200
        && |x.calls| >= 1
        && x.calls[|x.calls| - 1].EncodeCall?
        && encode(x.calls[|x.calls| - 1].input, x.calls[|x.calls| - 1].key,
                  x.calls[|x.calls| - 1].quality) == Some(x.response.body)
        && x.response.headers == Headers(ResolveFormat(request.form.format))
  {
    var x := Post(request, decode, encode);
    if x.response.Success? && UploadsFile(request) {
      var form := request.form;
      var format, quality := ResolveFormat(form.format), ResolveQuality(form.quality);
      if UploadsHeif(request) {
        assert x == ConvertHeif(form.file.bytes, format, quality, decode, encode);
      } else {
        assert x == ConvertDirect(form.file.bytes, format, quality, encode);
      }
    }
  }

  function WithFormat(request: Request, format: string): Request
    requires request.Parsed?
  {
    Parsed(request.form.(format := Some(format)))
  }

  /** Asking for jpg or jpeg makes the same oracle calls and gives the same outcome and
      Content-Type; only the suggested file name differs. */
  lemma JpgAndJpegAgree(request: Request, decode: Codec, encode: Codec)
    requires request.Parsed?
    ensures var a := Post(WithFormat(request, "jpg"), decode, encode);
      var b := Post(WithFormat(request, "jpeg"), decode, encode);
      && a.calls == b.calls
      && a.response.Success? == b.response.Success?
      && (a.response.Error? ==> a.response == b.response)
      && (a.response.Success? ==>
            && a.response.body == b.response.body
            && HeaderValue(a.response.headers, "Content-Type") == Some("image/jpeg")
            && HeaderValue(b.response.headers, "Content-Type") == Some("image/jpeg")
            && HeaderValue(a.response.headers, "Content-Disposition") ==
                 Some("attachment; filename=\"converted.jpg\"")
            && HeaderValue(b.response.headers, "Content-Disposition") ==
                 Some("attachment; filename=\"converted.jpeg\""))
  {
    var a := Post(WithFormat(request, "jpg"), decode, encode);
    var b := Post(WithFormat(request, "jpeg"), decode, encode);
    var form := request.form;
    assert ResolveFormat(Some("jpg")) == "jpg" && ResolveFormat(Some("jpeg")) == "jpeg";
    assert EncoderKey("jpg") == "jpeg" && EncoderKey("jpeg") == "jpeg";
    if UploadsFile(request) {
      var q := ResolveQuality(form.quality);
      if UploadsHeif(request) {
        assert a == ConvertHeif(form.file.bytes, "jpg", q, decode, encode);
        assert b == ConvertHeif(form.file.bytes, "jpeg", q, decode, encode);
      } else {
        assert a == ConvertDirect(form.file.bytes, "jpg", q, encode);
        assert b == ConvertDirect(form.file.bytes, "jpeg", q, encode);
      }
      if a.response.Success? {
        assert a.response.headers == Headers("jpg") && b.response.headers == Headers("jpeg");
        JpgAndJpegHeaders();
      }
    }
  }

  lemma JpgAndJpegHeaders()
    ensures HeaderValue(Headers("jpg"), "Content-Type") == Some("image/jpeg")
    ensures HeaderValue(Headers("jpeg"), "Content-Type") == Some("image/jpeg")
    ensures HeaderValue(Headers("jpg"), "Content-Disposition") == Some("attachment; filename=\"converted.jpg\"")
    ensures HeaderValue(Headers("jpeg"), "Content-Disposition") == Some("attachment; filename=\"converted.jpeg\"")
  {
    HeaderValues("jpg");
    HeaderValues("jpeg");
    assert "image/" + "jpeg" == "image/jpeg";
    assert "attachment; filename=\"converted." + "jpg" + "\"" == "attachment; filename=\"converted.jpg\"";
    assert "attachment; filename=\"converted." + "jpeg" + "\"" == "attachment; filename=\"converted.jpeg\"";
  }

  /** A missing or empty format field behaves exactly as `jpeg`; a missing, non-numeric
      or zero quality behaves exactly as 90. */
  lemma Defaults(file: FileField, format: Option<string>, quality: Option<int>, decode: Codec, encode: Codec)
    ensures Post(Parsed(Form(file, None, quality)), decode, encode)
         == Post(Parsed(Form(file, Some(""), quality)), decode, encode)
         == Post(Parsed(Form(file, Some("jpeg"), quality)), decode, encode)
    ensures Post(Parsed(Form(file, format, None)), decode, encode)
         == Post(Parsed(Form(file, format, Some(0))), decode, encode)
         == Post(Parsed(Form(file, format, Some(90))), decode, encode)
  {
  }

  /** A corrupted upload named `<anything>.heic` is a decode failure. */
  lemma CorruptHeicScenario(stem: string, bytes: seq<byte>, format: Option<string>, quality: Option<int>,
                            decode: Codec, encode: Codec)
    requires decode(bytes, "JPEG", 1).None?
    ensures Post(Parsed(Form(Blob(stem + ".heic", bytes), format, quality)), decode, encode).response
         == Error(500, DecodeFailedMessage)
  {
    assert stem + ".heic" == stem + "." + "heic";
    ExtensionAfterLastDot(stem, "heic");
    assert Lower("heic") == "heic";
  }

  /** An upload named `<anything>.HEIF` goes through the decoder too: the extension is lowered. */
  lemma UpperCaseHeifScenario(stem: string, bytes: seq<byte>, decode: Codec, encode: Codec)
    ensures Post(Parsed(Form(Blob(stem + ".HEIF", bytes), None, None)), decode, encode).calls[0]
         == DecodeCall(bytes, "JPEG", 1)
  {
    assert stem + ".HEIF" == stem + "." + "HEIF";
    ExtensionAfterLastDot(stem, "HEIF");
    assert Lower("HEIF") == "heif";
  }

  /** An upload named just `heic`, with no dot, is also treated as HEIC. */
  lemma DotlessHeicScenario(bytes: seq<byte>, decode: Codec, encode: Codec)
    ensures Post(Parsed(Form(Blob("heic", bytes), None, None)), decode, encode).calls[0]
         == DecodeCall(bytes, "JPEG", 1)
  {
    ExtensionWithoutDot("heic");
    assert Lower("heic") == "heic";
  }

  /** A PNG converted to webp at quality 80 answers 200 with Content-Type image/webp and
      the encoder's (non-empty) output. */
  lemma WebpScenario(stem: string, bytes: seq<byte>, decode: Codec, encode: Codec)
    requires encode(bytes, "webp", 80).Some? && encode(bytes, "webp", 80).value != []
    ensures var r := Post(Parsed(Form(Blob(stem + ".png", bytes), Some("webp"), Some(80))), decode, encode).response;
      && StatusOf(r) == 200
      && r.body == encode(bytes, "webp", 80).value != []
      && HeaderValue(r.headers, "Content-Type") == Some("image/webp")
  {
    assert stem + ".png" == stem + "." + "png";
    ExtensionAfterLastDot(stem, "png");
    assert Lower("png") == "png";
    assert Post(Parsed(Form(Blob(stem + ".png", bytes), Some("webp"), Some(80))), decode, encode)
        == ConvertDirect(bytes, "webp", 80, encode);
    HeaderValues("webp");
    assert "image/" + "webp" == "image/webp";
  }
}
