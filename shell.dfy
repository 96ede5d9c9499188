/**
 * The `App` component's state and event handlers. Each React state setter is an
 * immediate field write, in the order the handler calls it. The browser side
 * the handlers touch is kept as fields too: the object URLs handed out so far
 * (fresh numbers), the ones revoked, and the downloads emitted.
 */
module Shell {
  import opened Wrappers
  import Border
  import opened Raster
  import Canvas
  import DownloadName

  /** An object URL from `URL.createObjectURL`, drawn fresh from a counter. */
  type UrlId = nat

  /** A selected file: only its name matters to the handlers. */
  datatype File = File(name: string)

  /** How the `Image` element's decode of the object URL settles. */
  datatype Decode = Loaded(image: Image) | LoadError

  /** A download emitted by `link.click()`: its file name and the raster encoded as PNG. */
  datatype Download = Download(name: string, image: Image)

  /** The values `handleDownload` read before its `await`. */
  datatype Pending = Pending(pct: nat, fileName: Option<string>)

  datatype DownloadResult =
    | NoImage                    // no imageUrl: returned at once
    | DecodeFailed               // onerror: the promise rejected
    | NoContext                  // getContext('2d') gave null
    | Saved(download: Download)

  /** The export's border: the same rule as the preview, on the decoded image's size. */
  function ExportBorder(img: Image, pct: nat): (b: nat)
    ensures b == Border.BorderPx(Some(Border.Size(img.width, img.height)), pct)
    ensures Border.IsRoundOf(b, Border.LongestEdge(img.width, img.height) * pct, Border.Divisor)
  {
    Border.Thickness(Border.LongestEdge(img.width, img.height), pct)
  }

  /** What a download started with `p` produces from `decode` and `hasContext`. */
  function Outcome(p: Pending, decode: Decode, hasContext: bool): (r: DownloadResult)
    requires decode.Loaded? ==> decode.image.Wf()
    ensures r != NoImage
    ensures decode.LoadError? ==> r == DecodeFailed
    ensures decode.Loaded? && !hasContext ==> r == NoContext
    ensures r.Saved? <==> decode.Loaded? && hasContext
    ensures r.Saved? ==> r.download.name == DownloadName.DownloadName(p.fileName)
    ensures r.Saved? ==> r.download.image.width == decode.image.width + 2 * ExportBorder(decode.image, p.pct)
    ensures r.Saved? ==> r.download.image.height == decode.image.height + 2 * ExportBorder(decode.image, p.pct)
  {
    match decode
    case LoadError => DecodeFailed
    case Loaded(img) =>
      if !hasContext then NoContext
      else Saved(Download(DownloadName.DownloadName(p.fileName), Composited(img, ExportBorder(img, p.pct))))
  }

  class App {
    var borderPct: nat
    var imageUrl: Option<UrlId>
    var fileName: Option<string>
    var isDragging: bool
    var isDownloading: bool
    var imageSize: Option<Border.Size>

    /** URLs below `nextUrl` have been created. */
    var nextUrl: nat
    var revoked: set<UrlId>
    var downloads: seq<Download>

    /**
     * The slider keeps the percentage in range; the current URL is live; every
     * other URL ever created has been revoked, so at most one is held; a file
     * name and image size exist only with an image.
     */
    ghost predicate Valid()
      reads this
    {
      && Border.MinPct <= borderPct <= Border.MaxPct
      && (imageUrl.Some? ==> imageUrl.value < nextUrl && imageUrl.value !in revoked)
      && (forall u :: u in revoked ==> u < nextUrl)
      && (forall u :: 0 <= u < nextUrl && u !in revoked ==> imageUrl == Some(u))
      && (imageUrl.Some? <==> fileName.Some?)
      && (imageUrl.None? ==> imageSize.None?)
    }

    constructor ()
      ensures Valid()
      ensures borderPct == Border.DefaultPct && imageUrl == None && fileName == None
      ensures !isDragging && !isDownloading && imageSize == None
      ensures nextUrl == 0 && revoked == {} && downloads == []
    {
      borderPct := Border.DefaultPct;
      imageUrl, fileName, imageSize := None, None, None;
      isDragging, isDownloading := false, false;
      nextUrl, revoked, downloads := 0, {}, [];
    }

    /** The preview's `borderPx`. */
    function PreviewBorderPx(): (b: nat)
      reads this
      ensures imageSize.None? || borderPct == 0 ==> b == 0
    {
      Border.BorderPx(imageSize, borderPct)
    }

    /**
     * The download button is enabled: it is disabled while no image is loaded or a
     * download is in progress. An enabled button always has a name to derive.
     */
    function DownloadEnabled(): (e: bool)
      reads this
      requires Valid()
      ensures e <==> !(imageUrl.None? || isDownloading)
      ensures e ==> fileName.Some?
    {
      imageUrl.Some? && !isDownloading
    }

    /**
     * `setFile`: nothing without a file; otherwise the previous URL is revoked, a
     * fresh one replaces it, the name is taken from the file and the size is
     * forgotten until the new preview loads.
     */
    method SetFile(file: Option<File>)
      requires Valid()
      modifies this
      ensures Valid()
      ensures file.None? ==> unchanged(this)
      ensures file.Some? ==>
        && imageUrl == Some(old(nextUrl)) && nextUrl == old(nextUrl) + 1
        && fileName == Some(file.value.name) && imageSize == None
        && revoked == (if old(imageUrl).Some? then old(revoked) + {old(imageUrl).value} else old(revoked))
        && borderPct == old(borderPct) && isDragging == old(isDragging)
        && isDownloading == old(isDownloading) && downloads == old(downloads)
      ensures file.Some? ==> PreviewBorderPx() == 0
    {
      if file.None? {
        return;
      }
      if imageUrl.Some? {
        revoked := revoked + {imageUrl.value};
      }
      var nextId := nextUrl;
      nextUrl := nextUrl + 1;
      imageUrl := Some(nextId);
      fileName := Some(file.value.name);
      imageSize := None;
    }

    /** `handleFileInput`: the first chosen file, if any, goes to `setFile`. */
    method HandleFileInput(file: Option<File>)
      requires Valid()
      modifies this
      ensures Valid()
      ensures file.None? ==> unchanged(this)
      ensures file.Some? ==>
        && imageUrl == Some(old(nextUrl)) && nextUrl == old(nextUrl) + 1
        && fileName == Some(file.value.name) && imageSize == None
        && revoked == (if old(imageUrl).Some? then old(revoked) + {old(imageUrl).value} else old(revoked))
        && borderPct == old(borderPct) && isDragging == old(isDragging)
        && isDownloading == old(isDownloading) && downloads == old(downloads)
    {
      SetFile(file);
    }

    /** `handleDrop`: the drag highlight is cleared first, then the dropped file is set. */
    method HandleDrop(file: Option<File>)
      requires Valid()
      modifies this
      ensures Valid()
      ensures !isDragging
      ensures file.None? ==>
        && imageUrl == old(imageUrl) && fileName == old(fileName) && imageSize == old(imageSize)
        && nextUrl == old(nextUrl) && revoked == old(revoked)
      ensures file.Some? ==>
        && imageUrl == Some(old(nextUrl)) && nextUrl == old(nextUrl) + 1
        && fileName == Some(file.value.name) && imageSize == None
        && revoked == (if old(imageUrl).Some? then old(revoked) + {old(imageUrl).value} else old(revoked))
      ensures borderPct == old(borderPct) && isDownloading == old(isDownloading) && downloads == old(downloads)
    {
      isDragging := false;
      SetFile(file);
    }

    /** `handleDragOver`: the drop zone is highlighted. */
    method HandleDragOver()
      requires Valid()
      modifies this`isDragging
      ensures Valid()
      ensures isDragging
    {
      isDragging := true;
    }

    /** `handleDragLeave`: the highlight is removed. */
    method HandleDragLeave()
      requires Valid()
      modifies this`isDragging
      ensures Valid()
      ensures !isDragging
    {
      isDragging := false;
    }

    /**
     * `handleImageLoad`: the preview `<img>` reports its natural size. That element
     * is rendered only while an image URL is set.
     */
    method HandleImageLoad(naturalWidth: nat, naturalHeight: nat)
      requires Valid() && imageUrl.Some?
      modifies this`imageSize
      ensures Valid()
      ensures imageSize == Some(Border.Size(naturalWidth, naturalHeight))
    {
      imageSize := Some(Border.Size(naturalWidth, naturalHeight));
    }

    /** The range slider's `onChange`; the input only reports values within its bounds. */
    method SetBorderPct(value: nat)
      requires Valid() && Border.MinPct <= value <= Border.MaxPct
      modifies this`borderPct
      ensures Valid()
      ensures borderPct == value
    {
      borderPct := value;
    }

    /**
     * `handleDownload` up to its `await`: nothing without an image; otherwise the busy
     * flag is raised before decoding starts and the values the rest reads are kept.
     */
    method BeginDownload() returns (p: Option<Pending>)
      requires Valid()
      modifies this`isDownloading
      ensures Valid()
      ensures old(imageUrl).None? ==> p == None && isDownloading == old(isDownloading)
      ensures old(imageUrl).Some? ==> p == Some(Pending(borderPct, fileName)) && isDownloading
    {
      if imageUrl.None? {
        return None;
      }
      isDownloading := true;
      p := Some(Pending(borderPct, fileName));
    }

    /**
     * `handleDownload` after the decode settles: on a decode error or a missing 2-D
     * context nothing is emitted; otherwise the composited raster is emitted under
     * the derived name. The `finally` clears the busy flag on every path.
     */
    method FinishDownload(p: Pending, decode: Decode, hasContext: bool) returns (result: DownloadResult)
      requires Valid()
      requires decode.Loaded? ==> decode.image.Wf()
      modifies this`isDownloading, this`downloads
      ensures Valid()
      ensures !isDownloading
      ensures result == Outcome(p, decode, hasContext)
      ensures result.Saved? ==> downloads == old(downloads) + [result.download]
      ensures !result.Saved? ==> downloads == old(downloads)
      ensures DownloadEnabled() <==> imageUrl.Some?
    {
      match decode
      case LoadError =>
        isDownloading := false;
        result := DecodeFailed;
      case Loaded(img) =>
        var b := ExportBorder(img, p.pct);
        if !hasContext {
          isDownloading := false;
          result := NoContext;
          return;
        }
        var canvas := Canvas.Composite(img, b);
        var name := DownloadName.DownloadName(p.fileName);
        var download := Download(name, canvas.Snapshot());
        downloads := downloads + [download];
        result := Saved(download);
        isDownloading := false;
    }

    /**
     * The effect's cleanup when the component unmounts: the live URL, if any, is
     * revoked, so no URL ever created is left unrevoked.
     */
    method Unmount()
      requires Valid()
      modifies this`revoked
      ensures revoked == (if imageUrl.Some? then old(revoked) + {imageUrl.value} else old(revoked))
      ensures forall u :: 0 <= u < nextUrl ==> u in revoked
    {
      if imageUrl.Some? {
        revoked := revoked + {imageUrl.value};
      }
    }

    /** `handleDownload` when no other event runs during its `await`. */
    method HandleDownload(decode: Decode, hasContext: bool) returns (result: DownloadResult)
      requires Valid()
      requires decode.Loaded? ==> decode.image.Wf()
      modifies this`isDownloading, this`downloads
      ensures Valid()
      ensures old(imageUrl).None? ==> result == NoImage && unchanged(this)
      ensures old(imageUrl).Some? ==>
        && !isDownloading
        && result == Outcome(Pending(borderPct, fileName), decode, hasContext)
        && downloads == (if result.Saved? then old(downloads) + [result.download] else old(downloads))
    {
      var p := BeginDownload();
      if p.None? {
        return NoImage;
      }
      result := FinishDownload(p.value, decode, hasContext);
    }
  }

  /**
   * The preview and the export agree: once the preview has loaded an image of the
   * decoded image's size, the export canvas is the image grown by the previewed
   * border on every side.
   */
  lemma PreviewMatchesExport(p: Pending, img: Image, imageSize: Option<Border.Size>, hasContext: bool)
    requires img.Wf() && hasContext
    requires imageSize == Some(Border.Size(img.width, img.height))
    ensures Outcome(p, Loaded(img), hasContext).Saved?
    ensures Outcome(p, Loaded(img), hasContext).download.image.width
              == img.width + 2 * Border.BorderPx(imageSize, p.pct)
    ensures Outcome(p, Loaded(img), hasContext).download.image.height
              == img.height + 2 * Border.BorderPx(imageSize, p.pct)
  {
  }

  /** A 1000x500 photo at the default 4% is exported as 1004x504. */
  lemma DefaultExportExample(p: Pending, img: Image)
    requires img.Wf() && img.width == 1000 && img.height == 500 && p.pct == Border.DefaultPct
    ensures Outcome(p, Loaded(img), true).download.image.width == 1004
    ensures Outcome(p, Loaded(img), true).download.image.height == 504
  {
  }

  /** At 0% an opaque image is exported exactly as decoded. */
  lemma ZeroPercentExportsSource(p: Pending, img: Image)
    requires img.Wf() && img.AllOpaque() && p.pct == 0
    ensures Outcome(p, Loaded(img), true).download.image == img
  {
    Border.ZeroPercentIsZero(Border.LongestEdge(img.width, img.height));
    ZeroBorderIsIdentity(img);
  }
}
