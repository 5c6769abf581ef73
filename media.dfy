/** Media extraction: every gateway picture link in an entry's summary is
    downloaded and uploaded, and the attachment ids are kept in link order. */
module Media {
  import opened Outcomes
  import opened Patterns

  /** A downloaded picture: its bytes and its `content-type` header, if any. */
  datatype Download = Download(content: seq<bv8>, contentType: Option<string>)

  type MediaId = string

  /** The download of a URL and the upload of a picture to the posting service.
      An upload whose answer has no id raises (`media_posted['id']`). */
  datatype MediaOracles = MediaOracles(fetch: string -> CallResult<Download>,
                                       upload: Download -> CallResult<MediaId>)

  /** One picture: downloaded, then uploaded; either step may raise. */
  function UploadPicture(url: string, o: MediaOracles): CallResult<MediaId> {
    match o.fetch(url)
    case Raised => Raised
    case Ok(download) => o.upload(download)
  }

  /** The picture links of a summary, in textual order. */
  function PictureUrls(summary: string): seq<string> {
    AllTokens(summary, PictureUrl)
  }

  /** The attachment ids of a list of picture links: one id per link, in the
      same order, or `Raised` as soon as one download or upload raises. */
  function Pictures(urls: seq<string>, o: MediaOracles): (r: CallResult<seq<MediaId>>)
    ensures r.Ok? <==> forall k :: 0 <= k < |urls| ==> UploadPicture(urls[k], o).Ok?
    ensures r.Ok? ==> && |r.value| == |urls|
                      && forall k :: 0 <= k < |urls| ==> r.value[k] == UploadPicture(urls[k], o).value
    decreases |urls|
  {
    if urls == [] then Ok([])
    else
      match UploadPicture(urls[0], o)
      case Raised => Raised
      case Ok(id) =>
        match Pictures(urls[1..], o)
        case Raised => Raised
        case Ok(ids) => Ok([id] + ids)
  }

  /** The loop of the program: for each picture link, download, upload and append
      the id. */
  method GetPictures(summary: string, o: MediaOracles) returns (r: CallResult<seq<MediaId>>)
    ensures r == Pictures(PictureUrls(summary), o)
  {
    var urls := PictureUrls(summary);
    var media: seq<MediaId> := [];
    for k := 0 to |urls|
      invariant |media| == k
      invariant forall j :: 0 <= j < k ==> UploadPicture(urls[j], o).Ok? && media[j] == UploadPicture(urls[j], o).value
    {
      var download := o.fetch(urls[k]);
      if download.Raised? {
        return Raised;
      }
      var posted := o.upload(download.value);
      if posted.Raised? {
        return Raised;
      }
      media := media + [posted.value];
    }
    assert media == Pictures(urls, o).value;
    return Ok(media);
  }
}
