/**
 * The request handlers: `POST /remove-bg` (validate, decode, remove the
 * background, store both pictures, sweep) and `GET /download/<filename>`.
 * Clock readings, the random UUID, the remote service's answer, the local
 * routine and the failures of the imaging library are all inputs.
 */
module Handler {
  import opened Wrappers
  import opened Uploads
  import opened Naming
  import opened Imaging
  import opened Removal
  import opened Storage

  /** The multipart field sent by the client: its claimed name and the picture it decodes to, if any. */
  datatype Upload = Upload(filename: string, decoded: Option<Image>)

  /** The flash messages the handler can show. */
  datatype Flash = ChooseImage | UnsupportedFormat | ProcessingFailed

  /**
   * `RedirectToRequestUrl` redirects to the URL of the request itself
   * (`/remove-bg`, a POST-only route); `RedirectToIndex` goes to the start
   * page `/`, which holds the form; `ResultPage` shows both stored pictures.
   */
  datatype Response =
    | RedirectToRequestUrl(message: Flash)
    | RedirectToIndex(message: Flash)
    | ResultPage(originalPath: string, resultPath: string, filename: string)

  /** Everything from outside the handler that decides how one request goes. */
  datatype Environment = Environment(
    remote: RemoteOutcome,              // the remote service's answer
    local: (Image, nat) -> Option<Image>, // the k-th call of the local routine; None when it raises
    stamp: DateTime,                    // datetime.now() when the name is generated
    uuid: string,                       // str(uuid.uuid4())
    originalWritten: real,              // when the original is saved
    resultWritten: real,                // when the result is saved
    sweepNow: real,                     // datetime.now().timestamp() in the sweep
    originalSaveFails: bool,            // saving the original raises
    resultSaveFails: bool,              // saving the result raises
    undeletable: set<string>)           // names whose removal raises during the sweep

  /**
   * The three validation exits of `remove_background`: no `image` field, an
   * empty file name, a name the validator refuses. An empty name would be
   * refused by the validator too; it only gets a different message.
   */
  function Validate(files: map<string, Upload>): (r: Result<Upload, Flash>)
    ensures r.Ok? <==> "image" in files && AllowedFile(files["image"].filename)
    ensures r.Ok? ==> r.value == files["image"] && '.' in r.value.filename
    ensures r == Err(UnsupportedFormat)
        <==> "image" in files && files["image"].filename != "" && !AllowedFile(files["image"].filename)
    ensures r == Err(ChooseImage) <==> "image" !in files || files["image"].filename == ""
  {
    if "image" !in files then Err(ChooseImage)
    else if files["image"].filename == "" then Err(ChooseImage)
    else if !AllowedFile(files["image"].filename) then Err(UnsupportedFormat)
    else Ok(files["image"])
  }

  /** The folder after both pictures of one request are saved, original first. */
  function StoreArtifacts(files: map<string, Entry>, name: string, original: Picture, output: Image,
                          originalWritten: real, resultWritten: real): (r: map<string, Entry>)
    ensures OriginalName(name) in r && r[OriginalName(name)] == File(originalWritten, original)
    ensures ResultName(name) in r && r[ResultName(name)] == File(resultWritten, Picture(output, Png))
    ensures forall n :: n != OriginalName(name) && n != ResultName(name) ==>
      (n in r <==> n in files) && (n in files ==> r[n] == files[n])
  {
    StoredNamesDistinct(name, name);
    files[OriginalName(name) := File(originalWritten, original)][ResultName(name) := File(resultWritten, Picture(output, Png))]
  }

  /** What `GET /download/<filename>` answers. */
  datatype DownloadResponse = Attachment(path: string, downloadName: string, content: Picture) | ServerError(status: int)

  /**
   * `download_file`: serve `result_<filename>` from the upload folder as an
   * attachment named `no-bg_<filename>`; when there is no such file,
   * `send_file` raises and the handler answers 500.
   */
  function Download(files: map<string, Entry>, filename: string): (r: DownloadResponse)
    ensures r.Attachment? <==> ResultName(filename) in files && files[ResultName(filename)].File?
    ensures r.Attachment? ==> r.content == files[ResultName(filename)].content
    ensures r.Attachment? ==> r.path == UPLOAD_FOLDER + ResultName(filename) && r.downloadName == DownloadName(filename)
    ensures r.ServerError? ==> r.status == 500
  {
    var stored := ResultName(filename);
    if stored in files && files[stored].File? then
      Attachment(Join(UPLOAD_FOLDER, stored), DownloadName(filename), files[stored].content)
    else
      ServerError(500)
  }

  /**
   * Downloading the core name of a processed request finds exactly the
   * result it wrote, as a PNG, under the path the result page showed and
   * under the name `no-bg_<core>` — as long as the sweep that followed ran
   * within an hour of the write.
   */
  lemma DownloadAfterProcessing(files: map<string, Entry>, name: string, original: Picture, output: Image,
                                originalWritten: real, resultWritten: real, now: real, visited: set<string>)
    requires now - resultWritten <= MAX_AGE_SECONDS
    ensures Download(SweepOver(StoreArtifacts(files, name, original, output, originalWritten, resultWritten), now, visited), name)
         == Attachment(Join(UPLOAD_FOLDER, ResultName(name)), DownloadName(name), Picture(output, Png))
  {
  }

  /** A name never written is answered with status 500. */
  lemma DownloadMissing(files: map<string, Entry>)
    requires ResultName("doesnotexist.png") !in files
    ensures Download(files, "doesnotexist.png") == ServerError(500)
  {
  }

  /**
   * `remove_background`. Every validation exit returns before the folder is
   * touched; a failure while decoding or removing the background also
   * writes nothing; a failing result save leaves the original behind; on
   * success both pictures are stored and the sweep runs.
   */
  method RemoveBackground(folder: UploadFolder, files: map<string, Upload>, env: Environment)
    returns (resp: Response, ghost swept: set<string>)
    requires ValidDateTime(env.stamp) && CanonicalUuidText(env.uuid)
    modifies folder
    ensures Validate(files).Err? ==> resp == RedirectToRequestUrl(Validate(files).error) && folder.files == old(folder.files)
    ensures resp.RedirectToRequestUrl? ==> Validate(files).Err?
    ensures Validate(files).Ok? ==>
      var up := files["image"];
      if up.decoded.None? || RemoveBackgroundApi(up.decoded.value, env.remote, env.local).output.None?
         || env.originalSaveFails then
        resp == RedirectToIndex(ProcessingFailed) && folder.files == old(folder.files)
      else
        var name := GenerateUniqueFilename(up.filename, env.stamp, env.uuid);
        var original := Picture(up.decoded.value, FormatForExtension(Extension(up.filename)));
        var output := RemoveBackgroundApi(up.decoded.value, env.remote, env.local).output.value;
        if env.resultSaveFails then
          resp == RedirectToIndex(ProcessingFailed)
          && folder.files == old(folder.files)[OriginalName(name) := File(env.originalWritten, original)]
        else
          && resp == ResultPage(Join(UPLOAD_FOLDER, OriginalName(name)), Join(UPLOAD_FOLDER, ResultName(name)), name)
          && var stored := StoreArtifacts(old(folder.files), name, original, output,
                                          env.originalWritten, env.resultWritten);
             && swept <= stored.Keys
             && folder.files == SweepOver(stored, env.sweepNow, swept)
             && (forall n :: n in swept && n in env.undeletable ==> !Expired(stored[n], env.sweepNow))
             && ((forall n :: n in stored && Expired(stored[n], env.sweepNow) ==> n !in env.undeletable)
                 ==> folder.files == Sweep(stored, env.sweepNow))
    ensures resp.ResultPage? && env.sweepNow - env.resultWritten <= MAX_AGE_SECONDS ==>
      && AllowedFile(resp.filename)
      && Download(folder.files, resp.filename).Attachment?
      && Download(folder.files, resp.filename).path == resp.resultPath
      && Download(folder.files, resp.filename).content.format == Png
  {
    swept := {};
    var checked := Validate(files);
    if checked.Err? {
      return RedirectToRequestUrl(checked.error), swept;
    }
    var upload := checked.value;
    if upload.decoded.None? {
      return RedirectToIndex(ProcessingFailed), swept;
    }
    var input := upload.decoded.value;
    var removal := RemoveBackgroundApi(input, env.remote, env.local);
    if removal.output.None? {
      return RedirectToIndex(ProcessingFailed), swept;
    }
    var output := removal.output.value;

    var name := GenerateUniqueFilename(upload.filename, env.stamp, env.uuid);
    GeneratedNameIsAllowed(upload.filename, env.stamp, env.uuid);
    var originalName := OriginalName(name);
    var originalPath := Join(UPLOAD_FOLDER, originalName);
    if env.originalSaveFails {
      return RedirectToIndex(ProcessingFailed), swept;
    }
    folder.Save(originalName, Picture(input, FormatForExtension(Extension(name))), env.originalWritten);

    var resultName := ResultName(name);
    var resultPath := Join(UPLOAD_FOLDER, resultName);
    if env.resultSaveFails {
      return RedirectToIndex(ProcessingFailed), swept;
    }
    folder.Save(resultName, Picture(output, Png), env.resultWritten);

    swept := folder.CleanupOldFiles(env.sweepNow, env.undeletable);
    resp := ResultPage(originalPath, resultPath, name);
    if env.sweepNow - env.resultWritten <= MAX_AGE_SECONDS {
      DownloadAfterProcessing(old(folder.files), name, Picture(input, FormatForExtension(Extension(name))), output,
                              env.originalWritten, env.resultWritten, env.sweepNow, swept);
    }
  }
}
