/** The arXiv client: search results become paper records, a paper's PDF is
    downloaded into the client's directory unless it is there already, and a
    search-and-download keeps the papers whose download worked. The arXiv
    API and the HTTP transport are inputs: the API's results are given as a
    sequence and the network as a function from URL to what fetching it
    yields. The file system is the client's map from path to file content. */
module Arxiv {
  import opened Wrappers
  import opened Paths

  type Bytes = seq<bv8>

  // ---------------------------------------------------------------------------
  // Search
  // ---------------------------------------------------------------------------

  datatype ApiAuthor = ApiAuthor(name: string)

  /** One result of the arXiv API. The publication date is given already
      formatted as `YYYY-MM-DD`. */
  datatype ApiResult = ApiResult(
    title: string,
    authors: seq<ApiAuthor>,
    summary: string,
    published: string,
    pdfUrl: string,
    entryId: string,
    shortId: string,
    categories: seq<string>)

  /** The record the client makes of a search result. */
  datatype PaperInfo = PaperInfo(
    title: string,
    authors: seq<string>,
    summary: string,
    published: string,
    pdfUrl: string,
    entryId: string,
    arxivId: string,
    categories: seq<string>)

  /** The names of the authors, in order. */
  function AuthorNames(authors: seq<ApiAuthor>): (names: seq<string>)
    ensures |names| == |authors|
    ensures forall k :: 0 <= k < |authors| ==> names[k] == authors[k].name
  {
    seq(|authors|, k requires 0 <= k < |authors| => authors[k].name)
  }

  /** The record of one result: its fields as they are, the authors by name
      and the short identifier as the arXiv id. */
  function ToPaperInfo(r: ApiResult): (p: PaperInfo)
    ensures p.arxivId == r.shortId && p.pdfUrl == r.pdfUrl && p.title == r.title
    ensures |p.authors| == |r.authors|
    ensures forall k :: 0 <= k < |r.authors| ==> p.authors[k] == r.authors[k].name
  {
    PaperInfo(r.title, AuthorNames(r.authors), r.summary, r.published, r.pdfUrl,
              r.entryId, r.shortId, r.categories)
  }

  /** The records `search` returns, one per API result, in the API's order. */
  function SearchResults(apiResults: seq<ApiResult>): (papers: seq<PaperInfo>)
    ensures |papers| == |apiResults|
    ensures forall i :: 0 <= i < |apiResults| ==> papers[i] == ToPaperInfo(apiResults[i])
  {
    seq(|apiResults|, i requires 0 <= i < |apiResults| => ToPaperInfo(apiResults[i]))
  }

  // ---------------------------------------------------------------------------
  // Network
  // ---------------------------------------------------------------------------

  /** An HTTP response: its status code and the body as it streams in. */
  datatype Response = Response(statusCode: int, chunks: seq<Bytes>)

  /** What fetching a URL yields: a response, or a failure to get one. */
  datatype Fetch = Responded(response: Response) | ConnectionFailed(reason: string)

  /** Why a download failed. */
  datatype DownloadError = ConnectionError(reason: string) | HttpError(statusCode: int)

  /** The status codes `raise_for_status` raises for: client and server
      errors. */
  predicate IsErrorStatus(code: int) {
    400 <= code < 600
  }

  /** The body of a streamed response: its chunks, in order. */
  function Concat(chunks: seq<Bytes>): (body: Bytes)
    ensures chunks != [] ==> body == Concat(chunks[..|chunks| - 1]) + chunks[|chunks| - 1]
  {
    if chunks == [] then [] else Concat(chunks[..|chunks| - 1]) + chunks[|chunks| - 1]
  }

  /** Fetching `url` gives a response whose status is not an error. */
  predicate Downloadable(network: string -> Fetch, url: string) {
    network(url).Responded? && !IsErrorStatus(network(url).response.statusCode)
  }

  // ---------------------------------------------------------------------------
  // Download
  // ---------------------------------------------------------------------------

  /** Where the PDF of a paper is saved: `<dir>/<arxiv id>.pdf`. */
  function PdfPath(dir: Path, arxivId: string): (path: Path)
    ensures Name(path) == arxivId + ".pdf" && Parent(path) == dir
  {
    Div(dir, arxivId + ".pdf")
  }

  /** What one download does: its result, the files afterwards, and whether
      it made a request. */
  datatype DownloadOutcome = DownloadOutcome(
    result: Result<Path, DownloadError>,
    files: map<Path, Bytes>,
    requested: bool)
  {
    /** The request log of the download of `url`: `url` if it was requested. */
    function Asked(url: string): (log: seq<string>)
      ensures log == [] || log == [url]
    {
      if requested then [url] else []
    }
  }

  /** `download_paper` as a value. */
  function DownloadStep(dir: Path, files: map<Path, Bytes>, network: string -> Fetch, info: PaperInfo)
    : (d: DownloadOutcome)
    ensures var path := PdfPath(dir, info.arxivId);
            d.result.Success? ==> d.result.value == path && path in d.files
    ensures var path := PdfPath(dir, info.arxivId);
            path in files ==> d == DownloadOutcome(Success(path), files, false)
    ensures var path := PdfPath(dir, info.arxivId);
            path !in files ==> d.requested
    ensures d.result.Failure? ==> d.files == files
    ensures d.result.Success? <==> PdfPath(dir, info.arxivId) in files || Downloadable(network, info.pdfUrl)
    ensures var path := PdfPath(dir, info.arxivId);
            d.requested && d.result.Success? ==>
              d.files == files[path := Concat(network(info.pdfUrl).response.chunks)]
    ensures d.result.Failure? ==>
              (network(info.pdfUrl).ConnectionFailed?
               && d.result.error == ConnectionError(network(info.pdfUrl).reason))
              || (network(info.pdfUrl).Responded?
                  && IsErrorStatus(network(info.pdfUrl).response.statusCode)
                  && d.result.error == HttpError(network(info.pdfUrl).response.statusCode))
  {
    var path := PdfPath(dir, info.arxivId);
    if path in files then DownloadOutcome(Success(path), files, false)
    else
      match network(info.pdfUrl)
      case ConnectionFailed(reason) => DownloadOutcome(Failure(ConnectionError(reason)), files, true)
      case Responded(response) =>
        if IsErrorStatus(response.statusCode)
        then DownloadOutcome(Failure(HttpError(response.statusCode)), files, true)
        else DownloadOutcome(Success(path), files[path := Concat(response.chunks)], true)
  }

  /** Downloading the same paper again makes no request, whatever the
      network would answer now, and changes nothing: two calls make at most
      one request. */
  lemma DownloadTwice(dir: Path, files: map<Path, Bytes>, network: string -> Fetch,
                      later: string -> Fetch, info: PaperInfo)
    requires DownloadStep(dir, files, network, info).result.Success?
    ensures var first := DownloadStep(dir, files, network, info);
            DownloadStep(dir, first.files, later, info)
            == DownloadOutcome(first.result, first.files, false)
  {
  }

  /** A download adds or rewrites only its own file. */
  lemma DownloadTouchesOneFile(dir: Path, files: map<Path, Bytes>, network: string -> Fetch,
                               info: PaperInfo, other: Path)
    requires other != PdfPath(dir, info.arxivId)
    ensures var d := DownloadStep(dir, files, network, info);
            (other in d.files <==> other in files) && (other in files ==> d.files[other] == files[other])
  {
  }

  // ---------------------------------------------------------------------------
  // Search and download
  // ---------------------------------------------------------------------------

  /** `search_and_download` as a value: each paper in turn is downloaded
      against the files the earlier downloads left; the papers whose download
      worked are kept with their paths, in search order. */
  function Batch(dir: Path, files: map<Path, Bytes>, network: string -> Fetch, papers: seq<PaperInfo>)
    : (run: (seq<(PaperInfo, Path)>, map<Path, Bytes>))
    ensures |run.0| <= |papers|
    ensures forall k :: 0 <= k < |run.0| ==> run.0[k].1 == PdfPath(dir, run.0[k].0.arxivId)
    decreases |papers|
  {
    if papers == [] then ([], files)
    else
      var d := DownloadStep(dir, files, network, papers[0]);
      var rest := Batch(dir, d.files, network, papers[1..]);
      (if d.result.Success? then [(papers[0], d.result.value)] + rest.0 else rest.0, rest.1)
  }

  /** The URLs the downloads of `search_and_download` request, in order: one
      for every paper whose PDF is not there at its turn. */
  function BatchRequests(dir: Path, files: map<Path, Bytes>, network: string -> Fetch, papers: seq<PaperInfo>)
    : (urls: seq<string>)
    ensures |urls| <= |papers|
    decreases |papers|
  {
    if papers == [] then []
    else
      var d := DownloadStep(dir, files, network, papers[0]);
      d.Asked(papers[0].pdfUrl) + BatchRequests(dir, d.files, network, papers[1..])
  }

  /** Downloading the papers from index `i` on is downloading paper `i`,
      then the ones after it against the files it left. */
  lemma BatchUnfold(dir: Path, files: map<Path, Bytes>, network: string -> Fetch,
                    papers: seq<PaperInfo>, i: nat)
    requires i < |papers|
    ensures var d := DownloadStep(dir, files, network, papers[i]);
            var rest := Batch(dir, d.files, network, papers[i + 1..]);
            Batch(dir, files, network, papers[i..])
            == (if d.result.Success? then [(papers[i], d.result.value)] + rest.0 else rest.0, rest.1)
    ensures var d := DownloadStep(dir, files, network, papers[i]);
            BatchRequests(dir, files, network, papers[i..])
            == d.Asked(papers[i].pdfUrl) + BatchRequests(dir, d.files, network, papers[i + 1..])
  {
    assert papers[i..][0] == papers[i];
    assert papers[i..][1..] == papers[i + 1..];
  }

  /** One step of a batch seen from a loop that has already gathered
      `results` and logged `logged`: downloading paper `i` extends both by
      what that download gives, and the rest continues from its files. */
  lemma BatchStep(dir: Path, files: map<Path, Bytes>, network: string -> Fetch,
                  papers: seq<PaperInfo>, i: nat, results: seq<(PaperInfo, Path)>, logged: seq<string>)
    requires i < |papers|
    ensures var d := DownloadStep(dir, files, network, papers[i]);
            var rest := Batch(dir, d.files, network, papers[i + 1..]);
            var now := Batch(dir, files, network, papers[i..]);
            results + now.0
            == (if d.result.Success? then results + [(papers[i], d.result.value)] else results) + rest.0
            && now.1 == rest.1
    ensures var d := DownloadStep(dir, files, network, papers[i]);
            logged + BatchRequests(dir, files, network, papers[i..])
            == (logged + d.Asked(papers[i].pdfUrl)) + BatchRequests(dir, d.files, network, papers[i + 1..])
  {
    BatchUnfold(dir, files, network, papers, i);
    var d := DownloadStep(dir, files, network, papers[i]);
    var rest := Batch(dir, d.files, network, papers[i + 1..]);
    if d.result.Success? {
      assert results + ([(papers[i], d.result.value)] + rest.0) == (results + [(papers[i], d.result.value)]) + rest.0;
    }
    var later := BatchRequests(dir, d.files, network, papers[i + 1..]);
    assert logged + (d.Asked(papers[i].pdfUrl) + later) == (logged + d.Asked(papers[i].pdfUrl)) + later;
  }

  /** The papers of the pairs, in order. */
  function Firsts(pairs: seq<(PaperInfo, Path)>): (ps: seq<PaperInfo>)
    ensures |ps| == |pairs|
    ensures forall k :: 0 <= k < |pairs| ==> ps[k] == pairs[k].0
  {
    seq(|pairs|, k requires 0 <= k < |pairs| => pairs[k].0)
  }

  /** `xs` is `ys` with some elements left out and the rest in order. */
  predicate Subsequence<T(==)>(xs: seq<T>, ys: seq<T>)
    decreases |ys|
  {
    if ys == [] then xs == []
    else (xs != [] && xs[0] == ys[0] && Subsequence(xs[1..], ys[1..])) || Subsequence(xs, ys[1..])
  }

  /** The kept papers are the searched papers with the failed downloads left
      out, in search order. */
  lemma {:induction false} BatchKeepsSearchOrder(dir: Path, files: map<Path, Bytes>,
                                                 network: string -> Fetch, papers: seq<PaperInfo>)
    ensures Subsequence(Firsts(Batch(dir, files, network, papers).0), papers)
    decreases |papers|
  {
    if papers != [] {
      var d := DownloadStep(dir, files, network, papers[0]);
      BatchKeepsSearchOrder(dir, d.files, network, papers[1..]);
      var rest := Batch(dir, d.files, network, papers[1..]);
      if d.result.Success? {
        assert Firsts([(papers[0], d.result.value)] + rest.0) == [papers[0]] + Firsts(rest.0);
        assert ([papers[0]] + Firsts(rest.0))[1..] == Firsts(rest.0);
      }
    }
  }

  /** When every paper's URL can be downloaded, every paper is kept, in
      search order. */
  lemma {:induction false} BatchAllDownloadable(dir: Path, files: map<Path, Bytes>,
                                                network: string -> Fetch, papers: seq<PaperInfo>)
    requires forall k :: 0 <= k < |papers| ==> Downloadable(network, papers[k].pdfUrl)
    ensures var results := Batch(dir, files, network, papers).0;
            |results| == |papers|
            && forall k :: 0 <= k < |papers| ==> results[k] == (papers[k], PdfPath(dir, papers[k].arxivId))
    decreases |papers|
  {
    if papers != [] {
      var d := DownloadStep(dir, files, network, papers[0]);
      assert forall k :: 0 <= k < |papers| - 1 ==> papers[1..][k] == papers[k + 1];
      BatchAllDownloadable(dir, d.files, network, papers[1..]);
    }
  }

  /** Downloads never remove a file. */
  lemma {:induction false} BatchKeepsFiles(dir: Path, files: map<Path, Bytes>,
                                           network: string -> Fetch, papers: seq<PaperInfo>)
    ensures files.Keys <= Batch(dir, files, network, papers).1.Keys
    decreases |papers|
  {
    if papers != [] {
      var d := DownloadStep(dir, files, network, papers[0]);
      BatchKeepsFiles(dir, d.files, network, papers[1..]);
    }
  }

  /** Every path returned names a file that exists afterwards. */
  lemma {:induction false} BatchFilesExist(dir: Path, files: map<Path, Bytes>,
                                           network: string -> Fetch, papers: seq<PaperInfo>)
    ensures var run := Batch(dir, files, network, papers);
            forall k :: 0 <= k < |run.0| ==> run.0[k].1 in run.1
    decreases |papers|
  {
    if papers != [] {
      var d := DownloadStep(dir, files, network, papers[0]);
      BatchFilesExist(dir, d.files, network, papers[1..]);
      BatchKeepsFiles(dir, d.files, network, papers[1..]);
    }
  }

  /** A download only adds files, and requests only a PDF that is missing. */
  lemma DownloadStepGrowsFiles(dir: Path, files: map<Path, Bytes>, network: string -> Fetch, info: PaperInfo)
    ensures var d := DownloadStep(dir, files, network, info);
            files.Keys <= d.files.Keys && (d.requested <==> PdfPath(dir, info.arxivId) !in files)
  {
  }

  /** `url` is the URL of a searched paper whose PDF is not in `files`. */
  predicate MissingPaperUrl(dir: Path, files: map<Path, Bytes>, papers: seq<PaperInfo>, url: string) {
    exists i :: 0 <= i < |papers| && url == papers[i].pdfUrl && PdfPath(dir, papers[i].arxivId) !in files
  }

  /** A PDF already in the files is never requested: every URL requested is
      that of a searched paper whose file was missing before the batch. */
  lemma {:induction false} BatchRequestsOnlyMissing(dir: Path, files: map<Path, Bytes>,
                                                    network: string -> Fetch, papers: seq<PaperInfo>)
    ensures forall k :: 0 <= k < |BatchRequests(dir, files, network, papers)| ==>
              MissingPaperUrl(dir, files, papers, BatchRequests(dir, files, network, papers)[k])
    decreases |papers|
  {
    if papers != [] {
      var d := DownloadStep(dir, files, network, papers[0]);
      var rest := papers[1..];
      BatchRequestsOnlyMissing(dir, d.files, network, rest);
      var head := d.Asked(papers[0].pdfUrl);
      var tail := BatchRequests(dir, d.files, network, rest);
      var urls := BatchRequests(dir, files, network, papers);
      assert urls == head + tail;
      DownloadStepGrowsFiles(dir, files, network, papers[0]);
      forall k | 0 <= k < |urls| ensures MissingPaperUrl(dir, files, papers, urls[k]) {
        if k < |head| {
          assert urls[k] == papers[0].pdfUrl;
        } else {
          var m := k - |head|;
          assert urls[k] == tail[m];
          assert MissingPaperUrl(dir, d.files, rest, tail[m]);
          var i :| 0 <= i < |rest| && tail[m] == rest[i].pdfUrl && PdfPath(dir, rest[i].arxivId) !in d.files;
          assert papers[i + 1] == rest[i];
        }
      }
    }
  }

  /** A paper can be had from the files and the network as they are: its PDF
      is there already, or fetching its URL gives a response whose status is
      not an error. */
  predicate Fetchable(dir: Path, files: map<Path, Bytes>, network: string -> Fetch, p: PaperInfo) {
    PdfPath(dir, p.arxivId) in files || Downloadable(network, p.pdfUrl)
  }

  /** Paper `i` can be had, or an earlier paper with the same arXiv id, which
      saves to the same file, can. */
  predicate Obtainable(dir: Path, files: map<Path, Bytes>, network: string -> Fetch,
                       papers: seq<PaperInfo>, i: nat)
    requires i < |papers|
  {
    exists j :: 0 <= j <= i && papers[j].arxivId == papers[i].arxivId && Fetchable(dir, files, network, papers[j])
  }

  /** The papers whose flag is set, in order. */
  function Select(papers: seq<PaperInfo>, keep: seq<bool>): (ps: seq<PaperInfo>)
    requires |keep| == |papers|
    ensures |ps| <= |papers|
  {
    if papers == [] then [] else (if keep[0] then [papers[0]] else []) + Select(papers[1..], keep[1..])
  }

  /** The papers `search_and_download` keeps, stated without running the
      downloads: those that are obtainable from the files and the network
      before the batch, in search order. */
  function Kept(dir: Path, files: map<Path, Bytes>, network: string -> Fetch, papers: seq<PaperInfo>)
    : (ps: seq<PaperInfo>)
    ensures |ps| <= |papers|
  {
    Select(papers, seq(|papers|, i requires 0 <= i < |papers| => Obtainable(dir, files, network, papers, i)))
  }

  /** Different arXiv ids are saved to different files. */
  lemma PdfPathInjective(dir: Path, a: string, b: string)
    requires PdfPath(dir, a) == PdfPath(dir, b)
    ensures a == b
  {
    var na, nb := a + ".pdf", b + ".pdf";
    assert PdfPath(dir, a).parts[|dir.parts|] == na;
    assert PdfPath(dir, b).parts[|dir.parts|] == nb;
    assert a == na[..|a|] && b == nb[..|b|];
  }

  /** After the first download, a later paper is obtainable from the files it
      left exactly when it was obtainable from the files before it. */
  lemma ObtainableAfterFirst(dir: Path, files: map<Path, Bytes>, network: string -> Fetch,
                             papers: seq<PaperInfo>, i: nat)
    requires i + 1 < |papers|
    ensures var d := DownloadStep(dir, files, network, papers[0]);
            Obtainable(dir, files, network, papers, i + 1) <==> Obtainable(dir, d.files, network, papers[1..], i)
  {
    var p, rest := papers[0], papers[1..];
    var q := papers[i + 1];
    assert rest[i] == q;
    var d := DownloadStep(dir, files, network, p);
    var path := PdfPath(dir, p.arxivId);
    assert files.Keys <= d.files.Keys;
    if Obtainable(dir, files, network, papers, i + 1) {
      var j :| 0 <= j <= i + 1 && papers[j].arxivId == q.arxivId && Fetchable(dir, files, network, papers[j]);
      if j == 0 {
        assert PdfPath(dir, rest[i].arxivId) == path;
        assert Fetchable(dir, d.files, network, rest[i]);
      } else {
        assert rest[j - 1] == papers[j];
        assert Fetchable(dir, d.files, network, rest[j - 1]);
      }
    }
    if Obtainable(dir, d.files, network, rest, i) {
      var j :| 0 <= j <= i && rest[j].arxivId == q.arxivId && Fetchable(dir, d.files, network, rest[j]);
      assert papers[j + 1] == rest[j];
      var other := PdfPath(dir, rest[j].arxivId);
      if other != path {
        DownloadTouchesOneFile(dir, files, network, p, other);
      }
      if !Fetchable(dir, files, network, rest[j]) {
        PdfPathInjective(dir, rest[j].arxivId, p.arxivId);
        assert d.files != files;
        assert Fetchable(dir, files, network, papers[0]);
      }
    }
  }

  /** `search_and_download` keeps a paper exactly when its download does not
      raise: when its PDF is there already, or its URL answers with a
      non-error status, or an earlier paper with the same id was so
      downloaded. The papers kept come in search order. */
  lemma {:induction false} BatchKeepsObtainable(dir: Path, files: map<Path, Bytes>,
                                                network: string -> Fetch, papers: seq<PaperInfo>)
    ensures Firsts(Batch(dir, files, network, papers).0) == Kept(dir, files, network, papers)
    decreases |papers|
  {
    if papers != [] {
      var d := DownloadStep(dir, files, network, papers[0]);
      var rest := papers[1..];
      BatchKeepsObtainable(dir, d.files, network, rest);
      KeptAfterFirst(dir, files, network, papers);
      var tail := Batch(dir, d.files, network, rest).0;
      var head := if d.result.Success? then [(papers[0], d.result.value)] else [];
      assert Batch(dir, files, network, papers).0 == head + tail;
      FirstsAppend(head, tail);
    }
  }

  /** The papers of two runs of pairs are the papers of each, in order. */
  lemma FirstsAppend(a: seq<(PaperInfo, Path)>, b: seq<(PaperInfo, Path)>)
    ensures Firsts(a + b) == Firsts(a) + Firsts(b)
  {
  }

  /** The kept papers are the first paper when its download works, then the
      papers kept from the rest against the files that download left. */
  lemma KeptAfterFirst(dir: Path, files: map<Path, Bytes>, network: string -> Fetch, papers: seq<PaperInfo>)
    requires papers != []
    ensures var d := DownloadStep(dir, files, network, papers[0]);
            Kept(dir, files, network, papers)
            == (if d.result.Success? then [papers[0]] else []) + Kept(dir, d.files, network, papers[1..])
  {
    var d := DownloadStep(dir, files, network, papers[0]);
    var rest := papers[1..];
    var keep := seq(|papers|, i requires 0 <= i < |papers| => Obtainable(dir, files, network, papers, i));
    var keep' := seq(|rest|, i requires 0 <= i < |rest| => Obtainable(dir, d.files, network, rest, i));
    forall i | 0 <= i < |rest| ensures keep[1..][i] == keep'[i] {
      ObtainableAfterFirst(dir, files, network, papers, i);
    }
    assert keep[1..] == keep';
    assert keep[0] == Fetchable(dir, files, network, papers[0]);
  }

  /** When the searched papers have distinct arXiv ids, a paper is kept
      exactly when its PDF is there already or its URL answers with a
      non-error status. */
  lemma BatchKeepsFetchable(dir: Path, files: map<Path, Bytes>,
                            network: string -> Fetch, papers: seq<PaperInfo>)
    requires forall i, j :: 0 <= i < j < |papers| ==> papers[i].arxivId != papers[j].arxivId
    ensures Firsts(Batch(dir, files, network, papers).0)
            == Select(papers, seq(|papers|, i requires 0 <= i < |papers| => Fetchable(dir, files, network, papers[i])))
  {
    BatchKeepsObtainable(dir, files, network, papers);
    var keep := seq(|papers|, i requires 0 <= i < |papers| => Obtainable(dir, files, network, papers, i));
    var fetchable := seq(|papers|, i requires 0 <= i < |papers| => Fetchable(dir, files, network, papers[i]));
    forall i | 0 <= i < |papers| ensures keep[i] == fetchable[i] {
      assert Obtainable(dir, files, network, papers, i) ==> Fetchable(dir, files, network, papers[i]);
    }
    assert keep == fetchable;
  }

  // ---------------------------------------------------------------------------
  // The client
  // ---------------------------------------------------------------------------

  /** `ArxivClient`: its download directory and the files in the file system
      it writes to. The URLs it requested are kept as a log for the proofs. */
  class ArxivClient {
    const downloadDir: Path
    var files: map<Path, Bytes>
    ghost var requests: seq<string>

    constructor (downloadDir: Path, files: map<Path, Bytes>)
      ensures this.downloadDir == downloadDir && this.files == files && requests == []
    {
      this.downloadDir := downloadDir;
      this.files := files;
      requests := [];
    }

    /** `search`: one record per API result, in the API's order. */
    method Search(apiResults: seq<ApiResult>) returns (papers: seq<PaperInfo>)
      ensures |papers| == |apiResults|
      ensures forall i :: 0 <= i < |apiResults| ==> papers[i] == ToPaperInfo(apiResults[i])
    {
      papers := [];
      for i := 0 to |apiResults|
        invariant |papers| == i
        invariant forall j :: 0 <= j < i ==> papers[j] == ToPaperInfo(apiResults[j])
      {
        var result := apiResults[i];
        var info := PaperInfo(result.title, AuthorNames(result.authors), result.summary,
                              result.published, result.pdfUrl, result.entryId, result.shortId,
                              result.categories);
        papers := papers + [info];
      }
    }

    /** Opens `path` for writing, which empties it, and writes the chunks
        to it one after the other. */
    method WriteChunks(path: Path, chunks: seq<Bytes>)
      modifies this
      ensures files == old(files)[path := Concat(chunks)]
      ensures requests == old(requests)
    {
      files := files[path := []];
      for i := 0 to |chunks|
        invariant files == old(files)[path := Concat(chunks[..i])]
        invariant requests == old(requests)
      {
        assert chunks[..i + 1][..i] == chunks[..i];
        files := files[path := files[path] + chunks[i]];
      }
      assert chunks[..|chunks|] == chunks;
    }

    /** `download_paper`: when the PDF is not there yet, requests it, fails
        on an error status before creating the file, and otherwise writes the
        streamed chunks to it in order. */
    method DownloadPaper(info: PaperInfo, network: string -> Fetch)
      returns (r: Result<Path, DownloadError>)
      modifies this
      ensures var d := DownloadStep(downloadDir, old(files), network, info);
              r == d.result && files == d.files
              && requests == old(requests) + d.Asked(info.pdfUrl)
    {
      var filePath := Div(downloadDir, info.arxivId + ".pdf");
      if filePath in files {
        return Success(filePath);
      }
      requests := requests + [info.pdfUrl];
      var fetch := network(info.pdfUrl);
      if fetch.ConnectionFailed? {
        return Failure(ConnectionError(fetch.reason));
      }
      var response := fetch.response;
      if IsErrorStatus(response.statusCode) {
        return Failure(HttpError(response.statusCode));
      }
      WriteChunks(filePath, response.chunks);
      return Success(filePath);
    }

    /** `search_and_download`: searches, then downloads each paper in turn,
        keeping those whose download worked and passing over the others. */
    method SearchAndDownload(apiResults: seq<ApiResult>, network: string -> Fetch)
      returns (results: seq<(PaperInfo, Path)>)
      modifies this
      ensures (results, files) == Batch(downloadDir, old(files), network, SearchResults(apiResults))
      ensures requests == old(requests) + BatchRequests(downloadDir, old(files), network, SearchResults(apiResults))
    {
      var papers := Search(apiResults);
      assert papers == SearchResults(apiResults);
      results := [];
      assert papers[0..] == papers;
      assert [] + Batch(downloadDir, files, network, papers).0 == Batch(downloadDir, files, network, papers).0;
      for i := 0 to |papers|
        invariant var rest := Batch(downloadDir, files, network, papers[i..]);
                  Batch(downloadDir, old(files), network, papers) == (results + rest.0, rest.1)
        invariant old(requests) + BatchRequests(downloadDir, old(files), network, papers)
                  == requests + BatchRequests(downloadDir, files, network, papers[i..])
      {
        BatchStep(downloadDir, files, network, papers, i, results, requests);
        var outcome := DownloadPaper(papers[i], network);
        if outcome.Success? {
          results := results + [(papers[i], outcome.value)];
        }
      }
      assert papers[|papers|..] == [];
      assert results + [] == results;
      assert requests + [] == requests;
    }
  }
}
