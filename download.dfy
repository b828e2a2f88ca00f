/**
 * The public download page reached through /d/:fileId. Its lookup is a
 * stand-in: any non-empty id yields the same demonstration record, and the
 * download button builds an anchor without touching either store.
 */
module Download {
  import opened Wrappers
  import SizeFormat

  /** The record the page shows. */
  datatype FileDetails = FileDetails(id: string, name: string, size: nat, fileType: string)

  /** The page's state: the loading flag, the record and the error message. */
  datatype Page = Page(loading: bool, file: Option<FileDetails>, error: Option<string>)

  /** What the page renders: the spinner, the error panel or the file panel. */
  datatype Screen = Spinner | ErrorPanel(message: string) | FilePanel(name: string, sizeLabel: string)

  /** The anchor handleDownload clicks: its href and its download file name. */
  datatype Anchor = Anchor(href: string, download: string)

  /** JavaScript truthiness of an optional string: present and non-empty. */
  predicate Truthy(s: Option<string>)
  {
    s.Some? && s.value != ""
  }

  /** How fetchFileDetails decides, from the route parameter alone. */
  datatype Lookup = Found(file: FileDetails) | Missing(message: string)

  /**
   * fetchFileDetails' decision: a truthy fileId gives the demonstration record
   * carrying that id; anything else is the error "File not found".
   */
  function LookUp(fileId: Option<string>): (d: Lookup)
    ensures d.Found? <==> Truthy(fileId)
    ensures d.Found? ==>
      && d.file.id == fileId.value && d.file.name == "example-document.pdf"
      && d.file.size == 2500000 && d.file.fileType == "application/pdf"
    ensures d.Missing? ==> d.message == "File not found"
  {
    if Truthy(fileId) then Found(FileDetails(fileId.value, "example-document.pdf", 2500000, "application/pdf"))
    else Missing("File not found")
  }

  /**
   * The state after fetchFileDetails: loading is off; a record replaces the
   * file and leaves the error as it was; a miss sets the error and leaves the file.
   */
  function AfterFetch(p: Page, fileId: Option<string>): (q: Page)
    ensures !q.loading
    ensures Truthy(fileId) ==>
      q.file == Some(FileDetails(fileId.value, "example-document.pdf", 2500000, "application/pdf")) && q.error == p.error
    ensures !Truthy(fileId) ==> q.file == p.file && q.error == Some("File not found")
  {
    match LookUp(fileId)
    case Found(f) => p.(loading := false, file := Some(f))
    case Missing(m) => p.(loading := false, error := Some(m))
  }

  /** `formatFileSize(file?.size || 0)`: no file, like an empty one, is "0 bytes". */
  function SizeLabel(file: Option<FileDetails>): (shown: string)
    ensures file.None? || file.value.size == 0 ==> shown == "0 bytes"
    ensures file.Some? ==> shown == SizeFormat.FormatFileSize(file.value.size)
  {
    SizeFormat.FormatFileSize(if file.Some? then file.value.size else 0)
  }

  /** `file?.name || 'download'`: an absent file or an empty name falls back to 'download'. */
  function DownloadName(file: Option<FileDetails>): (name: string)
    ensures name != ""
    ensures file.Some? && file.value.name != "" ==> name == file.value.name
    ensures !(file.Some? && file.value.name != "") ==> name == "download"
  {
    if file.Some? && file.value.name != "" then file.value.name else "download"
  }

  /** `#${fileId}`: an absent parameter prints as "undefined". */
  function Href(fileId: Option<string>): (h: string)
    ensures |h| >= 1 && h[0] == '#'
    ensures fileId.Some? ==> h[1..] == fileId.value
    ensures fileId.None? ==> h[1..] == "undefined"
  {
    "#" + (if fileId.Some? then fileId.value else "undefined")
  }

  /** The page's render: the spinner while loading, an error when one is set, else the file. */
  function Render(p: Page): (sc: Screen)
    ensures sc.Spinner? <==> p.loading
    ensures sc.ErrorPanel? <==> !p.loading && p.error.Some? && p.error.value != ""
    ensures sc.ErrorPanel? ==> sc.message == p.error.value
    ensures sc.FilePanel? ==> sc.sizeLabel == SizeLabel(p.file)
    ensures sc.FilePanel? ==> sc.name == if p.file.Some? then p.file.value.name else ""
  {
    if p.loading then Spinner
    else if p.error.Some? && p.error.value != "" then ErrorPanel(p.error.value)
    else FilePanel(if p.file.Some? then p.file.value.name else "", SizeLabel(p.file))
  }

  /** The demonstration record of 2500000 bytes is labelled "2.4 MB"; no record is "0 bytes". */
  lemma SizeLabels(id: string)
    ensures SizeLabel(Some(FileDetails(id, "example-document.pdf", 2500000, "application/pdf"))) == "2.4 MB"
    ensures SizeLabel(None) == "0 bytes"
  {
    assert (10 * 2500000 + 524288) / 1048576 == 24;
  }

  /**
   * A freshly opened page shows the demonstration file for a truthy id and
   * the error "File not found" otherwise.
   */
  lemma FreshPageScreen(fileId: Option<string>)
    ensures Render(AfterFetch(Page(true, None, None), fileId)) ==
      if Truthy(fileId) then FilePanel("example-document.pdf", "2.4 MB") else ErrorPanel("File not found")
  {
    if Truthy(fileId) {
      SizeLabels(fileId.value);
    }
  }

  /**
   * A successful lookup does not clear an earlier error, so a page that once
   * missed keeps showing the error panel.
   */
  lemma EarlierErrorStays(fileId: string, message: string)
    requires fileId != "" && message != ""
    ensures Render(AfterFetch(Page(false, None, Some(message)), Some(fileId))) == ErrorPanel(message)
  {
  }

  /** The page of one route parameter. */
  class DownloadPage {
    const fileId: Option<string>
    var loading: bool
    var file: Option<FileDetails>
    var error: Option<string>

    ghost function State(): Page
      reads this
    {
      Page(loading, file, error)
    }

    constructor (fileId: Option<string>)
      ensures this.fileId == fileId && State() == Page(true, None, None)
    {
      this.fileId := fileId;
      loading, file, error := true, None, None;
    }

    /** fetchFileDetails, after its simulated delay. */
    method FetchFileDetails()
      modifies this
      ensures State() == AfterFetch(old(State()), fileId)
    {
      loading := true;
      match LookUp(fileId) {
        case Found(f) => file := Some(f);
        case Missing(m) => error := Some(m);
      }
      loading := false;
    }

    /**
     * handleDownload: the anchor it builds. It may modify nothing, so it
     * reads and writes no store and counts no download.
     */
    method HandleDownload() returns (anchor: Anchor)
      ensures anchor.href == Href(fileId)
      ensures anchor.download == DownloadName(file)
      ensures file.Some? && file.value.name != "" ==> anchor.download == file.value.name
      ensures !(file.Some? && file.value.name != "") ==> anchor.download == "download"
    {
      anchor := Anchor(Href(fileId), DownloadName(file));
    }
  }
}
