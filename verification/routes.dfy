/** The two HTTP handlers that read the watch list: `/sidebar` (the file
    index) and `/markdown` (one rendered file, wired to its `/watch` socket). */
module Routes {
  import opened Base
  import Sidebar
  import Fields
  import Reconcile

  const StatusOK: int := 200
  const StatusPermanentRedirect: int := 308
  const StatusInternalServerError: int := 500

  datatype Response =
    | Redirect(status: int, location: string)
    | ErrorPage(status: int, message: string)
    | Index(status: int, entries: seq<Sidebar.Entry>)
    | Page(status: int, socket: string, html: Html)

  /** What parsing the `Hx-Current-Url` header gave: the `filename` query
      parameter of that URL, or the parse error. */
  datatype CurrentUrl = Parsed(filename: Path) | Unparsable(message: string)

  /** `/sidebar`: a header that does not parse is a server error; otherwise the
      listing of the watch list with the viewed file in bold. */
  function SidebarRoute(current: CurrentUrl, watched: seq<Path>): (r: Response)
    ensures r.ErrorPage? <==> current.Unparsable?
    ensures r.ErrorPage? ==> r.status == StatusInternalServerError && r.message == current.message
    ensures r.Index? ==>
      && r.status == StatusOK
      && multiset(Sidebar.Paths(r.entries)) == multiset(watched)
      && Sidebar.SidebarOrdered(Sidebar.Paths(r.entries))
      && (forall i :: 0 <= i < |r.entries| ==> (r.entries[i].bold <==> r.entries[i].path == current.filename))
      && forall i :: 0 <= i < |r.entries| ==> r.entries[i].href == "/?filename=" + r.entries[i].path
    ensures r.Index? || r.ErrorPage?
  {
    match current
    case Unparsable(m) => ErrorPage(StatusInternalServerError, m)
    case Parsed(f) => Index(StatusOK, Sidebar.Listing(watched, f))
  }

  /** `/markdown`: a file that is not watched redirects to the index; a file
      that does not render is a server error; otherwise its HTML, set up to
      reconnect to the `/watch` socket for the same file. */
  function MarkdownRoute(filename: Path, watched: seq<Path>, render: Path -> Rendered): (r: Response)
    ensures r.Redirect? <==> filename !in watched
    ensures r.Redirect? ==> r.status == StatusPermanentRedirect && r.location == "/"
    ensures r.ErrorPage? <==> filename in watched && render(filename).RenderErr?
    ensures r.ErrorPage? ==> r.status == StatusInternalServerError && r.message == render(filename).message
    ensures r.Page? <==> filename in watched && render(filename).RenderOk?
    ensures r.Page? ==>
      && r.status == StatusOK
      && r.html == render(filename).html
      && r.socket == "connect:/watch?filename=" + filename
  {
    if filename !in watched then Redirect(StatusPermanentRedirect, "/")
    else match render(filename)
      case RenderErr(m) => ErrorPage(StatusInternalServerError, m)
      case RenderOk(html) => Page(StatusOK, "connect:/watch?filename=" + filename, html)
  }

  /** After a re-glob pass that completes, `/markdown` no longer redirects for
      any file the patterns matched. */
  lemma GlobbedFilesServed(watched: seq<Path>, flag: string, glob: string -> Reconcile.GlobResult,
                           canAdd: Path -> bool, pattern: string, f: Path, render: Path -> Rendered)
    requires NoDuplicates(watched)
    requires Reconcile.Tick(watched, flag, glob, canAdd).Completed?
    requires pattern in Fields.Fields(flag) && glob(pattern).Matches? && f in glob(pattern).paths
    ensures !MarkdownRoute(f, Reconcile.Tick(watched, flag, glob, canAdd).watched, render).Redirect?
  {
  }
}
