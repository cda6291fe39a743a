/**
  `handle_form`, in the service's REST module and, line for line the same,
  in the binary's entry file: trim the submitted URL, reject it when
  empty, download, archive, open the archive for streaming, schedule the
  deletion of both files and answer with a zip attachment.  Each failing
  step returns early with the index page carrying a message.

  The download, archive and open steps are parameters: what each one
  returns is up to the environment, and the flow is a function of those
  results.  The steps the flow actually takes are recorded in order, so
  that "a step is never reached" can be stated.
*/
module Handler {
  import opened Types
  import opened PathNames
  import opened Naming
  import opened Storage
  import opened Fetch

  /** `char::is_whitespace`: the Unicode White_Space property. */
  predicate IsWhitespace(c: char) {
    || ('\t' <= c <= '\r') || c == ' ' || c == '\U{85}' || c == '\U{A0}' || c == '\U{1680}'
    || ('\U{2000}' <= c <= '\U{200A}') || c == '\U{2028}' || c == '\U{2029}' || c == '\U{202F}'
    || c == '\U{205F}' || c == '\U{3000}'
  }

  /** `trim_start`: the longest suffix that does not start with white space. */
  function TrimStart(s: string): (r: string)
    ensures |r| <= |s| && r == s[|s| - |r|..]
    ensures forall k :: 0 <= k < |s| - |r| ==> IsWhitespace(s[k])
    ensures r != [] ==> !IsWhitespace(r[0])
  {
    if s != [] && IsWhitespace(s[0]) then TrimStart(s[1..]) else s
  }

  /** `trim_end`: the longest prefix that does not end with white space. */
  function TrimEnd(s: string): (r: string)
    ensures |r| <= |s| && r == s[..|r|]
    ensures forall k :: |r| <= k < |s| ==> IsWhitespace(s[k])
    ensures r != [] ==> !IsWhitespace(r[|r| - 1])
  {
    if s != [] && IsWhitespace(s[|s| - 1]) then TrimEnd(s[..|s| - 1]) else s
  }

  /**
    `str::trim`: a slice of `s`, starting where `TrimStart` starts, that
    neither starts nor ends with white space.
  */
  function Trim(s: string): (r: string)
    ensures |s| - |TrimStart(s)| + |r| <= |s|
    ensures forall k :: 0 <= k < |r| ==> r[k] == s[|s| - |TrimStart(s)| + k]
    ensures r != [] ==> !IsWhitespace(r[0]) && !IsWhitespace(r[|r| - 1])
  {
    TrimBothEnds(s);
    TrimEnd(TrimStart(s))
  }

  /** Trimming the start and then the end leaves a slice of the input with non-white ends. */
  lemma TrimBothEnds(s: string)
    ensures |s| - |TrimStart(s)| + |TrimEnd(TrimStart(s))| <= |s|
    ensures forall k :: 0 <= k < |TrimEnd(TrimStart(s))| ==> TrimEnd(TrimStart(s))[k] == s[|s| - |TrimStart(s)| + k]
    ensures TrimEnd(TrimStart(s)) != [] ==> !IsWhitespace(TrimEnd(TrimStart(s))[0])
    ensures TrimEnd(TrimStart(s)) != [] ==> !IsWhitespace(TrimEnd(TrimStart(s))[|TrimEnd(TrimStart(s))| - 1])
  {
    var u := TrimStart(s);
    var i := |s| - |u|;
    var r := TrimEnd(u);
    forall k | 0 <= k < |r|
      ensures r[k] == s[i + k]
    {
      assert r[k] == u[k];
    }
    assert r != [] ==> r[0] == u[0];
  }

  /** Trimming leaves nothing exactly when the input is all white space. */
  lemma TrimEmptyIffBlank(s: string)
    ensures Trim(s) == [] <==> forall k :: 0 <= k < |s| ==> IsWhitespace(s[k])
  {
    var u := TrimStart(s);
    if Trim(s) == [] {
      assert u == [];
    }
  }

  /** The result is a piece of the input with no white space at either end, so trimming again changes nothing. */
  lemma TrimIdempotent(s: string)
    ensures Trim(Trim(s)) == Trim(s)
  {
    var r := Trim(s);
    if r != [] {
      assert TrimStart(r) == r;
      assert TrimEnd(r) == r;
    }
  }

  lemma {:induction false} TrimStartPadded(a: string, s: string)
    requires forall k :: 0 <= k < |a| ==> IsWhitespace(a[k])
    requires s == [] || !IsWhitespace(s[0])
    ensures TrimStart(a + s) == s
  {
    if a == [] {
      assert a + s == s;
    } else {
      assert (a + s)[1..] == a[1..] + s;
      TrimStartPadded(a[1..], s);
    }
  }

  lemma {:induction false} TrimEndPadded(s: string, b: string)
    requires forall k :: 0 <= k < |b| ==> IsWhitespace(b[k])
    requires s == [] || !IsWhitespace(s[|s| - 1])
    ensures TrimEnd(s + b) == s
  {
    if b == [] {
      assert s + b == s;
    } else {
      assert (s + b)[..|s + b| - 1] == s + b[..|b| - 1];
      TrimEndPadded(s, b[..|b| - 1]);
    }
  }

  /** White space around a text that neither starts nor ends with white space is exactly what trimming removes. */
  lemma TrimPadded(a: string, s: string, b: string)
    requires forall k :: 0 <= k < |a| ==> IsWhitespace(a[k])
    requires forall k :: 0 <= k < |b| ==> IsWhitespace(b[k])
    requires s != [] && !IsWhitespace(s[0]) && !IsWhitespace(s[|s| - 1])
    ensures Trim(a + s + b) == s
  {
    assert a + s + b == a + (s + b);
    TrimStartPadded(a, s + b);
    TrimEndPadded(s, b);
  }

  /** The three messages an error page can carry. */
  datatype Notice = EmptyUrl | DownloadFailed | ArchiveFailed

  /** The text shown for each notice. */
  function Text(n: Notice): string {
    match n
    case EmptyUrl => "URL cannot be empty"
    case DownloadFailed => "Failed to download file"
    case ArchiveFailed => "Failed to archive file"
  }

  /** Different notices show different texts, so the page tells the user which step failed. */
  lemma TextsDistinct(a: Notice, b: Notice)
    ensures Text(a) == Text(b) <==> a == b
  {
    if a != b {
      assert Text(a)[0] != Text(b)[0] || Text(a)[10] != Text(b)[10];
    }
  }

  const ZipContentType: string := "application/zip"

  /** Seconds between the response and the deletion of both files. */
  const CleanupDelaySeconds: nat := 5

  /** The steps of the flow that touch the outside world. */
  datatype Step = Fetching(url: string) | Archiving(source: string, archive: string) | Opening(path: string)

  datatype Disposition = Attachment(filename: string)

  datatype Reply =
    | Page(notice: Notice)
    | Streamed(contentType: string, disposition: Disposition, cleanup: seq<string>)
    | ServerError

  /** The steps taken, in order, and the reply. */
  datatype Handled = Handled(steps: seq<Step>, reply: Reply)

  /** `handle_form`, for given outcomes of the download, archive and open steps. */
  function HandleForm(formUrl: string, download: string -> Result<Target, FetchError>,
                      archive: Target -> bool, open: string -> bool): (h: Handled)
    ensures |h.steps| <= 3
    ensures h.steps == [] <==> Trim(formUrl) == []
    ensures h.steps != [] ==> h.steps[0] == Fetching(Trim(formUrl))
    ensures h.reply.Page? && h.reply.notice == EmptyUrl <==> Trim(formUrl) == []
  {
    var url := Trim(formUrl);
    if url == [] then Handled([], Page(EmptyUrl))
    else match download(url)
      case Err(_) => Handled([Fetching(url)], Page(DownloadFailed))
      case Ok(t) => AfterDownload(url, t, archive, open)
  }

  /** The rest of the flow once the download of `url` produced `t`. */
  function AfterDownload(url: string, t: Target, archive: Target -> bool, open: string -> bool): (h: Handled)
    ensures |h.steps| >= 2 && h.steps[..2] == [Fetching(url), Archiving(t.source, t.archive)]
    ensures h.reply.Streamed? <==> archive(t) && open(t.archive)
    ensures h.reply == Page(ArchiveFailed) <==> !archive(t)
    ensures h.reply.Page? ==> h.reply.notice == ArchiveFailed
  {
    var fetched := [Fetching(url), Archiving(t.source, t.archive)];
    var served := [Fetching(url), Archiving(t.source, t.archive), Opening(t.archive)];
    if !archive(t) then Handled(fetched, Page(ArchiveFailed))
    else if !open(t.archive) then Handled(served, ServerError)
    else Handled(served, Streamed(ZipContentType, Attachment(ArchiveFileName(t)), [t.source, t.archive]))
  }

  /**
    The URL is trimmed before the check: a blank submission, and only a
    blank one, gets the empty-URL page, and then no step is taken at all.
  */
  lemma EmptyUrlShortCircuits(formUrl: string, download: string -> Result<Target, FetchError>,
                              archive: Target -> bool, open: string -> bool)
    ensures (HandleForm(formUrl, download, archive, open).reply == Page(EmptyUrl))
            <==> (forall k :: 0 <= k < |formUrl| ==> IsWhitespace(formUrl[k]))
    ensures (forall k :: 0 <= k < |formUrl| ==> IsWhitespace(formUrl[k])) ==>
              HandleForm(formUrl, download, archive, open) == Handled([], Page(EmptyUrl))
  {
    TrimEmptyIffBlank(formUrl);
    var h := HandleForm(formUrl, download, archive, open);
    assert h.reply == Page(EmptyUrl) <==> h.reply.Page? && h.reply.notice == EmptyUrl;
  }

  /** A blank submission does not depend on any step: none of them is attempted. */
  lemma BlankIgnoresSteps(formUrl: string,
                          d1: string -> Result<Target, FetchError>, a1: Target -> bool, o1: string -> bool,
                          d2: string -> Result<Target, FetchError>, a2: Target -> bool, o2: string -> bool)
    requires forall k :: 0 <= k < |formUrl| ==> IsWhitespace(formUrl[k])
    ensures HandleForm(formUrl, d1, a1, o1) == HandleForm(formUrl, d2, a2, o2)
  {
    TrimEmptyIffBlank(formUrl);
  }

  /**
    There is no URL syntax check: every submission that is not blank is
    handed, trimmed, to the download step first.
  */
  lemma AnyNonBlankUrlIsDownloaded(formUrl: string, download: string -> Result<Target, FetchError>,
                                   archive: Target -> bool, open: string -> bool)
    requires exists k :: 0 <= k < |formUrl| && !IsWhitespace(formUrl[k])
    ensures var h := HandleForm(formUrl, download, archive, open);
            |h.steps| >= 1 && h.steps[0] == Fetching(Trim(formUrl))
  {
    TrimEmptyIffBlank(formUrl);
  }

  /**
    A failed download gives the download-failure page and nothing after it:
    the archive and open steps are not reached.
  */
  lemma DownloadFailureStops(formUrl: string, download: string -> Result<Target, FetchError>,
                             a1: Target -> bool, o1: string -> bool, a2: Target -> bool, o2: string -> bool)
    requires Trim(formUrl) != [] && download(Trim(formUrl)).Err?
    ensures HandleForm(formUrl, download, a1, o1) == Handled([Fetching(Trim(formUrl))], Page(DownloadFailed))
    ensures HandleForm(formUrl, download, a1, o1) == HandleForm(formUrl, download, a2, o2)
  {
  }

  /** A failed archive step gives the archive-failure page: no stream is opened and no cleanup is scheduled. */
  lemma ArchiveFailureStops(formUrl: string, download: string -> Result<Target, FetchError>,
                            archive: Target -> bool, o1: string -> bool, o2: string -> bool)
    requires Trim(formUrl) != [] && download(Trim(formUrl)).Ok?
    requires !archive(download(Trim(formUrl)).value)
    ensures var h := HandleForm(formUrl, download, archive, o1);
            && h.reply == Page(ArchiveFailed)
            && (forall k :: 0 <= k < |h.steps| ==> !h.steps[k].Opening?)
    ensures HandleForm(formUrl, download, archive, o1) == HandleForm(formUrl, download, archive, o2)
  {
    var url := Trim(formUrl);
    var t := download(url).value;
    assert HandleForm(formUrl, download, archive, o1) == AfterDownload(url, t, archive, o1);
    assert HandleForm(formUrl, download, archive, o2) == AfterDownload(url, t, archive, o2);
  }

  /**
    The steps are strictly ordered: download, then archive of exactly the
    downloaded paths, then open of exactly the archive; each is taken only
    when the previous one succeeded.
  */
  lemma StepsInOrder(formUrl: string, download: string -> Result<Target, FetchError>,
                     archive: Target -> bool, open: string -> bool)
    ensures var h := HandleForm(formUrl, download, archive, open);
            var url := Trim(formUrl);
            && |h.steps| <= 3
            && (|h.steps| >= 1 ==> h.steps[0] == Fetching(url))
            && (|h.steps| >= 2 ==>
                  (download(url).Ok? && h.steps[1] == Archiving(download(url).value.source, download(url).value.archive)))
            && (|h.steps| == 3 ==>
                  (archive(download(url).value) && h.steps[2] == Opening(download(url).value.archive)))
  {
    var url := Trim(formUrl);
    if url != [] && download(url).Ok? {
      var t := download(url).value;
      AfterDownloadSteps(url, t, archive, open);
      assert HandleForm(formUrl, download, archive, open) == AfterDownload(url, t, archive, open);
    }
  }

  lemma AfterDownloadSteps(url: string, t: Target, archive: Target -> bool, open: string -> bool)
    ensures AfterDownload(url, t, archive, open).steps
            == [Fetching(url), Archiving(t.source, t.archive)] + (if archive(t) then [Opening(t.archive)] else [])
  {
    if archive(t) {
      assert [Fetching(url), Archiving(t.source, t.archive)] + [Opening(t.archive)]
             == [Fetching(url), Archiving(t.source, t.archive), Opening(t.archive)];
    } else {
      assert [Fetching(url), Archiving(t.source, t.archive)] + [] == [Fetching(url), Archiving(t.source, t.archive)];
    }
  }

  /**
    The zip is streamed exactly when every step succeeds; the response is
    then `application/zip`, an attachment named after the archive path's
    last component, and the cleanup list is the source then the archive.
  */
  lemma SuccessReply(formUrl: string, download: string -> Result<Target, FetchError>,
                     archive: Target -> bool, open: string -> bool)
    ensures var h := HandleForm(formUrl, download, archive, open);
            var url := Trim(formUrl);
            h.reply.Streamed? <==>
              url != [] && download(url).Ok? && archive(download(url).value) && open(download(url).value.archive)
    ensures var h := HandleForm(formUrl, download, archive, open);
            h.reply.Streamed? ==>
              var t := download(Trim(formUrl)).value;
              && h.reply.contentType == ZipContentType
              && FileName(t.archive) == Some(h.reply.disposition.filename)
              && h.reply.cleanup == [t.source, t.archive]
  {
    var url := Trim(formUrl);
    if url != [] && download(url).Ok? {
      var t := download(url).value;
      assert HandleForm(formUrl, download, archive, open) == AfterDownload(url, t, archive, open);
    }
  }

  /**
    The worked example: `https://example.com/reports/q1.csv`, no redirect, a
    sanitiser that keeps `q1.csv`, and every step succeeding.
  */
  lemma ExampleDownload(sanitize: string -> string, download: string -> Result<Target, FetchError>,
                        archive: Target -> bool, open: string -> bool)
    requires sanitize("q1.csv") == "q1.csv"
    requires download("https://example.com/reports/q1.csv") == Ok(Resolve("/reports/q1.csv", sanitize))
    requires archive(Resolve("/reports/q1.csv", sanitize)) && open(Resolve("/reports/q1.csv", sanitize).archive)
    ensures HandleForm(" " + "https://example.com/reports/q1.csv" + "\n", download, archive, open).reply
            == Streamed("application/zip", Attachment("q1.csv.zip"), ["q1.csv", "q1.csv.zip"])
  {
    var url := "https://example.com/reports/q1.csv";
    ExampleTrim(url);
    var t := ExampleTarget(sanitize);
    assert HandleForm(" " + url + "\n", download, archive, open) == AfterDownload(url, t, archive, open);
  }

  /** The example's submission, padded by a space and a newline, trims to the URL. */
  lemma ExampleTrim(url: string)
    requires url == "https://example.com/reports/q1.csv"
    ensures Trim(" " + url + "\n") == url
  {
    TrimPadded(" ", url, "\n");
  }

  /** The example's final URL path resolves to `q1.csv` and `q1.csv.zip`. */
  lemma ExampleTarget(sanitize: string -> string) returns (t: Target)
    requires sanitize("q1.csv") == "q1.csv"
    ensures t == Resolve("/reports/q1.csv", sanitize) == Paths("q1.csv", "q1.csv.zip")
    ensures ArchiveFileName(t) == "q1.csv.zip"
  {
    FileNameOfChild("/reports", "q1.csv");
    assert "/reports" + "/" + "q1.csv" == "/reports/q1.csv";
    t := Resolve("/reports/q1.csv", sanitize);
    assert '/' !in t.source;
  }

  /**
    The deletion task after the delay: try to remove every listed path,
    discarding each result, so every path is gone afterwards whatever
    happened to the others, and nothing else is touched.
  */
  method Cleanup(dir: WorkDir, paths: seq<string>)
    modifies dir
    ensures dir.files == old(dir.files) - Listed(paths)
  {
    for k := 0 to |paths|
      invariant dir.files == old(dir.files) - Listed(paths[..k])
    {
      var _ := dir.Remove(paths[k]);
      assert paths[..k + 1][..k] == paths[..k];
    }
    assert paths[..|paths|] == paths;
  }

  /** The set of paths in a cleanup list. */
  function Listed(paths: seq<string>): (r: set<string>)
    ensures forall p :: p in r <==> p in paths
  {
    if paths == [] then {} else Listed(paths[..|paths| - 1]) + {paths[|paths| - 1]}
  }
}
