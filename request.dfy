/** The request checks of `compress_media` in app.py: which requests are
    rejected with status 400 and why, which compressor an accepted request
    reaches with which level, and the JPEG quality the result is saved
    with. Saving files, reading images and running the compressors are
    not part of this module. */
module Request {
  import opened Common
  import opened FileTypes

  /** A multipart request as the handler sees it: the name of the uploaded
      file when a `file` part is present, and the `method` field
      (`methodField`) and the `level` field, already converted by `int`,
      when they are present. */
  datatype Form = Form(fileName: Option<string>, methodField: Option<string>, level: Option<int>)

  /** Why a request is turned away with status 400. */
  datatype Rejection =
    | NoFileProvided          // no `file` part
    | NoFileSelected          // an empty file name
    | InvalidFormat           // `allowed_file` fails
    | LevelOutOfRange         // level below 10 or above 90
    | VideoMethodUnsupported  // a video with a method other than auto or ffmpeg
    | InvalidImageMethod      // an image with a method outside the whitelist

  /** The image methods that pass the whitelist, `auto` already replaced. */
  datatype ImageMethod = HuffmanMethod | SvdMethod | PcaMethod

  datatype Route = Video | Picture(chosen: ImageMethod)

  /** An accepted request: where it goes and with which level. */
  datatype Plan = Plan(route: Route, level: int)

  /** `request.form.get('method', 'auto')` */
  function MethodOf(form: Form): string {
    if form.methodField.Some? then form.methodField.value else "auto"
  }

  /** `int(request.form.get('level', 50))` */
  function LevelOf(form: Form): int {
    if form.level.Some? then form.level.value else 50
  }

  const ImageMethods: seq<string> := ["huffman", "svd", "pca", "auto"]

  /** `if method == 'auto': method = 'svd'`, on a whitelisted method. */
  function ImageMethodOf(requested: string): ImageMethod {
    if requested == "huffman" then HuffmanMethod
    else if requested == "pca" then PcaMethod
    else SvdMethod
  }

  /** The checks of `compress_media`, in the order the handler makes them. */
  function Validate(form: Form): (r: Result<Plan, Rejection>)
    ensures r.Ok? ==> 10 <= r.value.level <= 90 && r.value.level == LevelOf(form)
    ensures r.Ok? ==> form.fileName.Some? && AllowedFile(form.fileName.value)
    ensures r.Ok? ==> (r.value.route.Video? <==> IsVideoFile(form.fileName.value))
  {
    match form.fileName
    case None => Err(NoFileProvided)
    case Some(name) =>
      if name == "" then Err(NoFileSelected)
      else if !AllowedFile(name) then Err(InvalidFormat)
      else
        var requested, level := MethodOf(form), LevelOf(form);
        if level < 10 || level > 90 then Err(LevelOutOfRange)
        else if IsVideoFile(name) then
          if requested != "auto" && requested != "ffmpeg" then Err(VideoMethodUnsupported)
          else Ok(Plan(Video, level))
        else if requested !in ImageMethods then Err(InvalidImageMethod)
        else Ok(Plan(Picture(ImageMethodOf(requested)), level))
  }

  /** A request is accepted exactly when it names an allowed file, its level
      is between 10 and 90, and its method suits the kind of file. */
  lemma ValidateOkIff(form: Form)
    ensures Validate(form).Ok? <==>
      form.fileName.Some? && form.fileName.value != "" && AllowedFile(form.fileName.value) &&
      10 <= LevelOf(form) <= 90 &&
      (IsVideoFile(form.fileName.value) ==> MethodOf(form) in {"auto", "ffmpeg"}) &&
      (!IsVideoFile(form.fileName.value) ==> MethodOf(form) in {"huffman", "svd", "pca", "auto"})
  {
  }

  /** An allowed file with a level outside 10..90 is rejected for its level,
      whatever its method. */
  lemma LevelOutsideRangeRejected(form: Form)
    requires form.fileName.Some? && form.fileName.value != "" && AllowedFile(form.fileName.value)
    requires LevelOf(form) < 10 || LevelOf(form) > 90
    ensures Validate(form) == Err(LevelOutOfRange)
  {
  }

  /** An accepted image request with method `auto`, or none, goes to SVD;
      `huffman`, `svd` and `pca` go to their own compressor. */
  lemma ImageMethodChoice(form: Form)
    requires Validate(form).Ok? && Validate(form).value.route.Picture?
    ensures MethodOf(form) in {"auto", "svd"} <==> Validate(form).value.route.chosen == SvdMethod
    ensures MethodOf(form) == "huffman" <==> Validate(form).value.route.chosen == HuffmanMethod
    ensures MethodOf(form) == "pca" <==> Validate(form).value.route.chosen == PcaMethod
  {
  }

  /** The call an accepted request leads to. `pca_compress` is not defined
      in app.py, so that branch raises NameError, which the handler turns
      into status 500. */
  datatype Call = CallFfmpeg(level: int) | CallHuffman | CallSvd(level: int) | UndefinedName(name: string)

  function Dispatch(plan: Plan): (c: Call)
    ensures plan.route == Video <==> c.CallFfmpeg?
    ensures c.CallFfmpeg? ==> c.level == plan.level
    ensures plan.route == Picture(HuffmanMethod) <==> c == CallHuffman
    ensures plan.route == Picture(SvdMethod) <==> c == CallSvd(plan.level)
    ensures c.UndefinedName? <==> plan.route == Picture(PcaMethod)
  {
    match plan.route
    case Video => CallFfmpeg(plan.level)
    case Picture(HuffmanMethod) => CallHuffman
    case Picture(SvdMethod) => CallSvd(plan.level)
    case Picture(PcaMethod) => UndefinedName("pca_compress")
  }

  /** An accepted request reaches the compressor its method names, with the
      level of the form: ffmpeg for videos, `svd_compress` for auto or svd,
      `huffman_compress` for huffman. */
  lemma DispatchOfForm(form: Form)
    requires Validate(form).Ok?
    ensures var c := Dispatch(Validate(form).value);
      (c == CallFfmpeg(LevelOf(form)) <==> IsVideoFile(form.fileName.value)) &&
      (c == CallSvd(LevelOf(form)) <==> !IsVideoFile(form.fileName.value) && MethodOf(form) in {"auto", "svd"}) &&
      (c == CallHuffman <==> !IsVideoFile(form.fileName.value) && MethodOf(form) == "huffman")
  {
  }

  /** The status of the response when reading, compressing and saving
      succeed: 400 for every rejection of `Validate`, 500 for the undefined
      PCA compressor, 200 otherwise. */
  function ResponseStatus(form: Form): (status: int)
    ensures status in {200, 400, 500}
  {
    match Validate(form)
    case Err(_) => 400
    case Ok(plan) => if Dispatch(plan).UndefinedName? then 500 else 200
  }

  lemma ResponseStatusCases(form: Form)
    ensures ResponseStatus(form) == 400 <==> Validate(form).Err?
    ensures ResponseStatus(form) == 500 <==>
      Validate(form).Ok? && !IsVideoFile(form.fileName.value) && MethodOf(form) == "pca"
    ensures ResponseStatus(form) in {200, 400, 500}
  {
  }

  /** `jpeg_quality = max(10, 100 - level)` */
  function JpegQuality(level: int): (quality: int)
    ensures quality >= 10
    ensures level <= 90 ==> quality == 100 - level
  {
    Max(10, 100 - level)
  }

  /** For every accepted level the quality lies between 10 and 90. */
  lemma JpegQualityRange(form: Form)
    requires Validate(form).Ok?
    ensures 10 <= JpegQuality(Validate(form).value.level) <= 90
  {
  }

  /** Over the accepted levels the quality falls strictly as the level
      rises, and it never rises for any level. */
  lemma JpegQualityDecreasing(level1: int, level2: int)
    requires level1 < level2
    ensures JpegQuality(level2) <= JpegQuality(level1)
    ensures 10 <= level1 && level2 <= 90 ==> JpegQuality(level2) < JpegQuality(level1)
  {
  }
}
