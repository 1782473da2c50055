/**
 * Pictures as the rest of the model sees them, and the background-removal
 * orchestrator `remove_background_api`: try the remote service, fall back to
 * the local routine on any failure.
 */
module Imaging {
  import opened Uploads

  /**
   * A decoded picture. Pixels are not modelled: two pictures are the same
   * exactly when their handles are.
   */
  datatype Image = Image(handle: nat)

  /** The encodings a picture is written in. */
  datatype Format = Png | Jpeg | Webp | Bmp

  /** A stored picture: what was saved and in which encoding. */
  datatype Picture = Picture(image: Image, format: Format)

  /** The encoding the imaging library picks from a file's (lower-case) extension. */
  function FormatForExtension(ext: string): (f: Format)
    requires ext in ALLOWED_EXTENSIONS
    ensures f == Png <==> ext == "png"
    ensures f == Jpeg <==> ext == "jpg" || ext == "jpeg"
    ensures f == Webp <==> ext == "webp"
    ensures f == Bmp <==> ext == "bmp"
  {
    if ext == "png" then Png
    else if ext == "jpg" || ext == "jpeg" then Jpeg
    else if ext == "webp" then Webp
    else Bmp
  }
}

module Removal {
  import opened Wrappers
  import opened Imaging

  /**
   * What the POST to the remote service came to: an HTTP status with the
   * body decoded as a picture if it decodes, or an exception (encoding the
   * request, the network, the 30-second timeout).
   */
  datatype RemoteOutcome = Responded(status: int, body: Option<Image>) | Raised

  /**
   * The picture handed back (`None` when the local routine raised out of the
   * function) and how many times the local routine ran.
   */
  datatype Removal = Removal(output: Option<Image>, localCalls: nat)

  /** The remote call answered 200 with a body that decodes. */
  predicate RemoteSucceeded(remote: RemoteOutcome)
  {
    remote.Responded? && remote.status == 200 && remote.body.Some?
  }

  /**
   * `remove_background_api`. `local(input, k)` is what `rembg.remove`
   * gives on its k-th call within one request (k is 1 or 2); `None` stands
   * for it raising. On a non-200 status the local call sits inside the
   * `try`, so when it raises the `except` clause runs it a second time, and
   * whatever that second call does is what the function does.
   */
  function RemoveBackgroundApi(input: Image, remote: RemoteOutcome, local: (Image, nat) -> Option<Image>): (r: Removal)
    ensures r.localCalls <= 2
    ensures r.localCalls == 0 ==> RemoteSucceeded(remote) && r.output == remote.body
  {
    match remote
    case Raised => Removal(local(input, 1), 1)
    case Responded(status, body) =>
      if status == 200 then
        match body
        case Some(img) => Removal(Some(img), 0)
        case None => Removal(local(input, 1), 1)
      else if local(input, 1).Some? then Removal(local(input, 1), 1)
      else Removal(local(input, 2), 2)
  }

  /**
   * The fallback rule: the remote picture exactly when the service answered
   * 200 with a decodable body; otherwise the first local call's result, or
   * the second's when a non-200 answer met a raising first call. The local
   * routine runs exactly when the remote attempt failed.
   */
  lemma FallbackChoice(input: Image, remote: RemoteOutcome, local: (Image, nat) -> Option<Image>)
    ensures var r := RemoveBackgroundApi(input, remote, local);
      && (RemoteSucceeded(remote) ==> r.output == remote.body)
      && (!RemoteSucceeded(remote) ==>
            r.output == if r.localCalls == 2 then local(input, 2) else local(input, 1))
      && (r.localCalls == 0 <==> RemoteSucceeded(remote))
  {
  }

  /**
   * No picture comes back only when the remote attempt failed and every
   * local call it led to raised.
   */
  lemma RemovalFailsOnlyLocally(input: Image, remote: RemoteOutcome, local: (Image, nat) -> Option<Image>)
    ensures RemoveBackgroundApi(input, remote, local).output.None?
        <==> && !RemoteSucceeded(remote) && local(input, 1).None?
             && (remote.Responded? && remote.status != 200 ==> local(input, 2).None?)
  {
  }

  /** The local routine runs twice exactly when a non-200 answer was followed by a raising first local call. */
  lemma LocalRetriedAfterNon200(input: Image, remote: RemoteOutcome, local: (Image, nat) -> Option<Image>)
    ensures RemoveBackgroundApi(input, remote, local).localCalls == 2
        <==> remote.Responded? && remote.status != 200 && local(input, 1).None?
  {
  }

  /** A retry after a non-200 answer can rescue the request even though the first local call raised. */
  lemma RetryCanSucceed(input: Image, remote: RemoteOutcome, local: (Image, nat) -> Option<Image>)
    requires remote.Responded? && remote.status != 200
    requires local(input, 1).None? && local(input, 2).Some?
    ensures RemoveBackgroundApi(input, remote, local).output == local(input, 2)
    ensures RemoveBackgroundApi(input, remote, local).output.Some?
  {
  }
}
