/** The script's main loop: for every candidate path, request the detail page named
    after its basename and, when the request succeeds, print that page rendered
    against the local file's metadata. The network and the file system are given
    as functions. */
module Canigtfo {
  import opened Text
  import opened Paths
  import opened Render

  /** The response to a detail-page request: its HTTP status and, parsed, the
      elements of its body. */
  datatype Page = Page(status: int, elements: seq<Element>)

  /** What is printed for one candidate: the banner's path and link, then the lines. */
  datatype Report = Report(file: string, url: string, lines: seq<string>)

  /** What one candidate produces: a report when the request answers 200, else nothing. */
  function ReportFor(file: string, fetch: string -> Page, stat: string -> FileInfo): seq<Report> {
    var url := DetailUrl(file);
    var page := fetch(url);
    if page.status == 200 then [Report(file, url, Rendered(page.elements, stat(file)))] else []
  }

  /** What the candidates produce, in candidate order. */
  function Reports(files: seq<string>, fetch: string -> Page, stat: string -> FileInfo): seq<Report> {
    if files == [] then []
    else Reports(files[..|files| - 1], fetch, stat) + ReportFor(files[|files| - 1], fetch, stat)
  }

  /** Collects the candidates, then handles them. */
  method Run(stdinIsTty: bool, stdin: string, argv: seq<string>,
             fetch: string -> Page, stat: string -> FileInfo)
    returns (printed: seq<Report>)
    ensures printed == Reports(PipedPaths(stdinIsTty, stdin) + Arguments(argv), fetch, stat)
  {
    var files := CollectCandidates(stdinIsTty, stdin, argv);
    printed := HandleCandidates(files, fetch, stat);
  }

  /** Handles the candidates one after the other: request the page named after the
      path's last component and, on 200, render it against the path's metadata. */
  method HandleCandidates(files: seq<string>, fetch: string -> Page, stat: string -> FileInfo)
    returns (printed: seq<Report>)
    ensures printed == Reports(files, fetch, stat)
  {
    printed := [];
    for i := 0 to |files|
      invariant printed == Reports(files[..i], fetch, stat)
    {
      var file := files[i];
      assert files[..i + 1] == files[..i] + [file];
      ReportsSnoc(files[..i], file, fetch, stat);
      var url := DetailUrl(file);
      var page := fetch(url);
      if page.status == 200 {
        var output := RenderElements(page.elements, stat(file));
        printed := printed + [Report(file, url, output)];
      }
    }
    assert files[..|files|] == files;
  }

  lemma ReportsSnoc(files: seq<string>, file: string, fetch: string -> Page, stat: string -> FileInfo)
    ensures Reports(files + [file], fetch, stat) == Reports(files, fetch, stat) + ReportFor(file, fetch, stat)
  {
    assert (files + [file])[..|files|] == files;
  }

  /** Reports come out in candidate order: the reports for two runs of candidates
      are those for the first followed by those for the second. */
  lemma {:induction false} ReportsAppend(a: seq<string>, b: seq<string>,
                                         fetch: string -> Page, stat: string -> FileInfo)
    ensures Reports(a + b, fetch, stat) == Reports(a, fetch, stat) + Reports(b, fetch, stat)
  {
    if b == [] {
      assert a + b == a;
    } else {
      assert (a + b)[..|a + b| - 1] == a + b[..|b| - 1];
      ReportsAppend(a, b[..|b| - 1], fetch, stat);
    }
  }

  /** Every report belongs to a candidate, was requested from that candidate's URL,
      answered 200, and holds the rendering of that page against that candidate's
      metadata; there are never more reports than candidates. */
  lemma {:induction false} ReportsFaithful(files: seq<string>, fetch: string -> Page, stat: string -> FileInfo)
    ensures |Reports(files, fetch, stat)| <= |files|
    ensures forall r <- Reports(files, fetch, stat) ::
      && r.file in files
      && r.url == DetailUrl(r.file)
      && fetch(r.url).status == 200
      && r.lines == Rendered(fetch(r.url).elements, stat(r.file))
  {
    if files != [] {
      var n := |files| - 1;
      ReportsFaithful(files[..n], fetch, stat);
      assert forall f <- files[..n] :: f in files;
    }
  }

  /** A candidate whose request answers 200 gets its report. */
  lemma {:induction false} ReportsComplete(files: seq<string>, fetch: string -> Page, stat: string -> FileInfo)
    ensures forall f <- files :: fetch(DetailUrl(f)).status == 200 ==>
      Report(f, DetailUrl(f), Rendered(fetch(DetailUrl(f)).elements, stat(f))) in Reports(files, fetch, stat)
  {
    if files != [] {
      var n := |files| - 1;
      var init, last := files[..n], files[n];
      assert files == init + [last];
      ReportsComplete(init, fetch, stat);
      ReportsSnoc(init, last, fetch, stat);
      forall f <- files | fetch(DetailUrl(f)).status == 200
        ensures Report(f, DetailUrl(f), Rendered(fetch(DetailUrl(f)).elements, stat(f))) in Reports(files, fetch, stat)
      {
        if f != last {
          assert f in init;
        }
      }
    }
  }

  /** Nothing is printed when no candidate's request answers 200. */
  lemma {:induction false} ReportsSilent(files: seq<string>, fetch: string -> Page, stat: string -> FileInfo)
    requires forall f <- files :: fetch(DetailUrl(f)).status != 200
    ensures Reports(files, fetch, stat) == []
  {
    if files != [] {
      var n := |files| - 1;
      var init, last := files[..n], files[n];
      assert files == init + [last];
      ReportsSilent(init, fetch, stat);
      ReportsSnoc(init, last, fetch, stat);
    }
  }
}
