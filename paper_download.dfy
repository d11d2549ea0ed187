/**
 The pure part of the arXiv downloader: which lines of the list file are
 URLs, which URLs are abstract-page URLs, and how the paper id, the PDF URL
 and the output path are derived from one; and the loop that gives every URL
 exactly one outcome, going on after a failed download. Reading the list
 file and the HTTP transfer itself are not modelled: the file arrives as its
 lines, and the transfer is the parameter `retrieve`.
 */
module PaperDownload {
  import opened Strings

  const AbsSegment := "/abs/"
  const PdfSegment := "/pdf/"
  const PdfSuffix := ".pdf"

  /** What one line contributes to the URL list: its stripped text, unless
      that is empty. */
  function UrlOf(line: string): (r: seq<string>)
    ensures |r| <= 1
  {
    var u := Strip(line);
    if u != "" then [u] else []
  }

  /** `[line.strip() for line in f if line.strip()]`. */
  function UrlList(lines: seq<string>): (urls: seq<string>)
    ensures |urls| <= |lines|
  {
    if lines == [] then []
    else UrlOf(lines[0]) + UrlList(lines[1..])
  }

  /** Every listed URL is non-empty and has no surrounding whitespace. */
  lemma {:induction false} UrlListClean(lines: seq<string>, u: string)
    requires u in UrlList(lines)
    ensures u != "" && Trimmed(u)
  {
    if Strip(lines[0]) != "" && u == Strip(lines[0]) {
    } else {
      UrlListClean(lines[1..], u);
    }
  }

  /** The URL list keeps file order: the list of a concatenation of lines is
      the concatenation of their lists. */
  lemma {:induction false} UrlListAppend(a: seq<string>, b: seq<string>)
    ensures UrlList(a + b) == UrlList(a) + UrlList(b)
  {
    if a == [] {
      assert a + b == b;
    } else {
      assert (a + b)[0] == a[0];
      assert (a + b)[1..] == a[1..] + b;
      UrlListAppend(a[1..], b);
      assert UrlOf(a[0]) + (UrlList(a[1..]) + UrlList(b)) == (UrlOf(a[0]) + UrlList(a[1..])) + UrlList(b);
    }
  }

  /** The URLs are exactly the stripped lines that are not blank. */
  lemma {:induction false} UrlListMember(lines: seq<string>, u: string)
    ensures u in UrlList(lines) <==> u != "" && exists i :: 0 <= i < |lines| && Strip(lines[i]) == u
  {
    if lines != [] {
      UrlListMember(lines[1..], u);
      if exists i :: 0 <= i < |lines| && Strip(lines[i]) == u {
        var i :| 0 <= i < |lines| && Strip(lines[i]) == u;
        if i > 0 {
          assert lines[1..][i - 1] == lines[i];
        }
      }
    }
  }

  /** Lines that are already non-blank and stripped are listed unchanged. */
  lemma {:induction false} UrlListOfClean(lines: seq<string>)
    requires forall i :: 0 <= i < |lines| ==> lines[i] != "" && Trimmed(lines[i])
    ensures UrlList(lines) == lines
  {
    if lines != [] {
      StripTrimmed(lines[0]);
      UrlListOfClean(lines[1..]);
      assert lines == [lines[0]] + lines[1..];
    }
  }

  /** The arXiv id: `url.split('/')[-1]`. */
  function ArxivId(url: string): string {
    LastSegment(url, '/')
  }

  /** `url.replace('/abs/', '/pdf/') + '.pdf'`. */
  function PdfUrl(url: string): string {
    ReplaceAll(url, AbsSegment, PdfSegment) + PdfSuffix
  }

  /** The PDF URL is the page URL with `/abs/` swapped for the same-length
      `/pdf/`, plus the `.pdf` suffix. */
  lemma PdfUrlShape(url: string)
    ensures |PdfUrl(url)| == |url| + 4
    ensures EndsWith(PdfUrl(url), PdfSuffix)
  {
    var r := ReplaceAll(url, AbsSegment, PdfSegment);
    assert (r + PdfSuffix)[|r|..] == PdfSuffix;
  }

  /** `os.path.join(a, b)` on POSIX: `b` replaces `a` when it is absolute;
      otherwise a `/` is put between them unless `a` is empty or already
      ends with one. */
  function JoinPath(a: string, b: string): string {
    if StartsWith(b, "/") then b
    else if a == "" || EndsWith(a, "/") then a + b
    else a + "/" + b
  }

  /** `os.path.join(output_dir, f"{arxiv_id}.pdf")`. */
  function OutputFile(outputDir: string, url: string): string {
    JoinPath(outputDir, ArxivId(url) + PdfSuffix)
  }

  /** `os.path.join(dir, name)` for a relative, separator-free `name` ends
      in `name`, after a `/` unless `dir` is empty. */
  lemma JoinPathLastSegment(dir: string, name: string)
    requires Free(name, '/') && name != []
    ensures LastSegment(JoinPath(dir, name), '/') == name
  {
    assert !StartsWith(name, "/") by {
      assert name[..1] == [name[0]];
    }
    LastSegmentNoSep(name, '/');
    if dir == "" {
      assert JoinPath(dir, name) == name;
    } else if EndsWith(dir, "/") {
      var d := dir[..|dir| - 1];
      assert dir == d + ['/'];
      assert JoinPath(dir, name) == d + ['/'] + name;
      LastSegmentAfterSep(d, '/', name);
    } else {
      assert JoinPath(dir, name) == dir + ['/'] + name;
      LastSegmentAfterSep(dir, '/', name);
    }
  }

  /** `os.path.join(dir, name)` for a relative `name` starts with `dir`. */
  lemma JoinPathPrefix(dir: string, name: string)
    requires name != [] && name[0] != '/'
    ensures StartsWith(JoinPath(dir, name), dir)
  {
    assert !StartsWith(name, "/") by {
      assert name[..1] == [name[0]];
    }
    var out := JoinPath(dir, name);
    assert out == dir + name || out == dir + "/" + name;
    assert out[..|dir|] == dir;
  }

  /** The file name `arxiv_id + ".pdf"` holds no `/` and does not start
      with one. */
  lemma PdfNameRelative(url: string)
    ensures Free(ArxivId(url) + PdfSuffix, '/')
    ensures (ArxivId(url) + PdfSuffix)[0] != '/'
  {
    var id := ArxivId(url);
    var name := id + PdfSuffix;
    assert forall j :: 0 <= j < |id| ==> name[j] == id[j];
    assert forall j :: |id| <= j < |name| ==> name[j] == PdfSuffix[j - |id|];
    if id != [] {
      assert name[0] == id[0];
    }
  }

  /** The file written for a URL lies in the output directory and is named
      after the arXiv id. */
  lemma OutputFileName(outputDir: string, url: string)
    ensures LastSegment(OutputFile(outputDir, url), '/') == ArxivId(url) + PdfSuffix
    ensures StartsWith(OutputFile(outputDir, url), outputDir)
  {
    PdfNameRelative(url);
    JoinPathLastSegment(outputDir, ArxivId(url) + PdfSuffix);
    JoinPathPrefix(outputDir, ArxivId(url) + PdfSuffix);
  }

  /** A `/abs/` occurrence that starts inside `prefix` would be an occurrence
      in `prefix + "/"`. */
  lemma NoEarlyAbs(prefix: string, id: string)
    requires !Contains(prefix + "/", AbsSegment)
    ensures forall i: nat :: i < |prefix| ==> !MatchAt(prefix + AbsSegment + id, AbsSegment, i)
  {
    var url := prefix + AbsSegment + id;
    forall i: nat | i < |prefix| ensures !MatchAt(url, AbsSegment, i) {
      if i + 5 <= |url| {
        if |prefix| - i < 4 {
          assert url[i..i + 5][|prefix| - i] == url[|prefix|] == '/';
        } else {
          assert url[i..i + 5] == (prefix + "/")[i..i + 5];
          assert !MatchAt(prefix + "/", AbsSegment, i);
        }
      }
    }
  }

  /** The id of `prefix/abs/id`, for a separator-free `id`, is `id`. */
  lemma AbsUrlId(prefix: string, id: string)
    requires Free(id, '/')
    ensures ArxivId(prefix + AbsSegment + id) == id
  {
    assert prefix + AbsSegment + id == (prefix + AbsSegment[..4]) + ['/'] + id;
    LastSegmentAfterSep(prefix + AbsSegment[..4], '/', id);
    LastSegmentNoSep(id, '/');
  }

  /** The PDF URL of `prefix/abs/id` when the `/abs/` is the first one. */
  lemma AbsUrlPdf(prefix: string, id: string)
    requires Free(id, '/')
    requires !Contains(prefix + "/", AbsSegment)
    ensures PdfUrl(prefix + AbsSegment + id) == prefix + PdfSegment + id + PdfSuffix
  {
    NoEarlyAbs(prefix, id);
    ReplaceAllFirstMatch(prefix, AbsSegment, id, PdfSegment);
    assert !Contains(id, AbsSegment) by {
      forall i: nat | i + 5 <= |id| ensures !MatchAt(id, AbsSegment, i) {
        assert id[i..i + 5][0] == id[i] != '/';
      }
    }
    ReplaceAllNoMatch(id, AbsSegment, PdfSegment);
  }

  /** For an abstract-page URL `prefix/abs/id`, where `id` has no `/` and the
      `/abs/` is the first one, the URL is accepted and the id and the PDF
      URL are the expected ones. */
  lemma ArxivUrlForm(prefix: string, id: string)
    requires Free(id, '/')
    requires !Contains(prefix + "/", AbsSegment)
    ensures Contains(prefix + AbsSegment + id, AbsSegment)
    ensures ArxivId(prefix + AbsSegment + id) == id
    ensures PdfUrl(prefix + AbsSegment + id) == prefix + PdfSegment + id + PdfSuffix
  {
    var url := prefix + AbsSegment + id;
    assert MatchAt(url, AbsSegment, |prefix|) by {
      assert url[|prefix|..|prefix| + 5] == AbsSegment;
    }
    AbsUrlId(prefix, id);
    AbsUrlPdf(prefix, id);
  }

  /** What `urlretrieve` did: the file was saved, or an exception was raised. */
  datatype Transfer = Done | Error(message: string)

  /** What one iteration of the download loop reports for one URL. */
  datatype Outcome =
    | Saved(arxivId: string, pdfUrl: string, outputFile: string)
    | InvalidUrl(url: string)
    | DownloadFailed(arxivId: string, pdfUrl: string, message: string)

  /** The outcome of one URL: not an abstract-page URL, or the transfer of
      its PDF to the output directory and how that went. */
  function OutcomeOf(url: string, outputDir: string, retrieve: (string, string) -> Transfer): Outcome {
    if !Contains(url, AbsSegment) then InvalidUrl(url)
    else
      var arxivId := ArxivId(url);
      var pdfUrl := PdfUrl(url);
      var outputFile := OutputFile(outputDir, url);
      match retrieve(pdfUrl, outputFile)
      case Done => Saved(arxivId, pdfUrl, outputFile)
      case Error(message) => DownloadFailed(arxivId, pdfUrl, message)
  }

  /** The files the loop wrote, in order. */
  function SavedFiles(log: seq<Outcome>): seq<string> {
    if log == [] then []
    else
      var last := log[|log| - 1];
      SavedFiles(log[..|log| - 1]) + (if last.Saved? then [last.outputFile] else [])
  }

  /** The outcomes of `urls`, one per URL, in order. */
  function Outcomes(urls: seq<string>, outputDir: string, retrieve: (string, string) -> Transfer): seq<Outcome> {
    if urls == [] then []
    else Outcomes(urls[..|urls| - 1], outputDir, retrieve) + [OutcomeOf(urls[|urls| - 1], outputDir, retrieve)]
  }

  /** Every URL gets exactly one outcome, at its own position. */
  lemma {:induction false} OutcomesAt(urls: seq<string>, outputDir: string, retrieve: (string, string) -> Transfer, i: nat)
    requires i < |urls|
    ensures |Outcomes(urls, outputDir, retrieve)| == |urls|
    ensures Outcomes(urls, outputDir, retrieve)[i] == OutcomeOf(urls[i], outputDir, retrieve)
  {
    var n := |urls| - 1;
    if i < n {
      OutcomesAt(urls[..n], outputDir, retrieve, i);
    } else if n > 0 {
      OutcomesAt(urls[..n], outputDir, retrieve, 0);
    }
  }

  lemma OutcomesSnoc(urls: seq<string>, i: nat, outputDir: string, retrieve: (string, string) -> Transfer)
    requires i < |urls|
    ensures Outcomes(urls[..i + 1], outputDir, retrieve)
         == Outcomes(urls[..i], outputDir, retrieve) + [OutcomeOf(urls[i], outputDir, retrieve)]
  {
    assert urls[..i + 1][..i] == urls[..i] && urls[..i + 1][i] == urls[i];
  }

  lemma SavedFilesSnoc(log: seq<Outcome>, o: Outcome)
    ensures SavedFiles(log + [o]) == SavedFiles(log) + (if o.Saved? then [o.outputFile] else [])
  {
    assert (log + [o])[..|log|] == log;
  }

  /** `download_arxiv_papers`: one outcome per listed URL, in order, and the
      list of files written. A failed transfer is recorded and the loop goes
      on with the next URL. */
  method DownloadArxivPapers(lines: seq<string>, outputDir: string, retrieve: (string, string) -> Transfer)
    returns (log: seq<Outcome>, saved: seq<string>)
    ensures log == Outcomes(UrlList(lines), outputDir, retrieve)
    ensures saved == SavedFiles(log)
  {
    var urls := UrlList(lines);
    log, saved := [], [];
    for i := 0 to |urls|
      invariant log == Outcomes(urls[..i], outputDir, retrieve)
      invariant saved == SavedFiles(log)
    {
      var outcome := OutcomeOf(urls[i], outputDir, retrieve);
      OutcomesSnoc(urls, i, outputDir, retrieve);
      SavedFilesSnoc(log, outcome);
      log := log + [outcome];
      if outcome.Saved? {
        saved := saved + [outcome.outputFile];
      }
    }
    assert urls[..|urls|] == urls;
  }

  /** Only valid, successfully transferred URLs leave a file: each saved file
      is the output path of a `Saved` outcome, and back. */
  lemma {:induction false} SavedFilesMember(log: seq<Outcome>, f: string)
    ensures f in SavedFiles(log) <==> exists i :: 0 <= i < |log| && log[i].Saved? && log[i].outputFile == f
  {
    if log != [] {
      var n := |log| - 1;
      SavedFilesMember(log[..n], f);
      if exists i :: 0 <= i < |log| && log[i].Saved? && log[i].outputFile == f {
        var i :| 0 <= i < |log| && log[i].Saved? && log[i].outputFile == f;
        if i < n {
          assert log[..n][i] == log[i];
        }
      }
    }
  }

  /** A URL without `/abs/` is reported invalid and never saved. */
  lemma InvalidUrlNotSaved(url: string, outputDir: string, retrieve: (string, string) -> Transfer)
    requires !Contains(url, AbsSegment)
    ensures OutcomeOf(url, outputDir, retrieve) == InvalidUrl(url)
    ensures !OutcomeOf(url, outputDir, retrieve).Saved?
  {
  }

  /** An abstract-page URL whose transfer succeeds is saved under the
      derived id, PDF URL and output path. */
  lemma TransferredUrlSaved(url: string, outputDir: string, retrieve: (string, string) -> Transfer)
    requires Contains(url, AbsSegment)
    requires retrieve(PdfUrl(url), OutputFile(outputDir, url)) == Done
    ensures OutcomeOf(url, outputDir, retrieve) == Saved(ArxivId(url), PdfUrl(url), OutputFile(outputDir, url))
  {
  }

  /** Two URLs get their two outcomes, in order. */
  lemma OutcomesPair(a: string, b: string, outputDir: string, retrieve: (string, string) -> Transfer)
    ensures Outcomes([a, b], outputDir, retrieve)
         == [OutcomeOf(a, outputDir, retrieve), OutcomeOf(b, outputDir, retrieve)]
  {
    assert [a, b][..1] == [a];
    assert [a][..0] == [];
    assert Outcomes([a], outputDir, retrieve) == [OutcomeOf(a, outputDir, retrieve)];
  }

  /** A list with one malformed URL and one abstract-page URL whose transfer
      succeeds: one invalid-URL report, then exactly one file written, at the
      expected path. */
  lemma OneInvalidOneValid(bad: string, good: string, outputDir: string, retrieve: (string, string) -> Transfer)
    requires bad != "" && Trimmed(bad) && !Contains(bad, AbsSegment)
    requires good != "" && Trimmed(good) && Contains(good, AbsSegment)
    requires retrieve(PdfUrl(good), OutputFile(outputDir, good)) == Done
    ensures UrlList([bad, good]) == [bad, good]
    ensures Outcomes([bad, good], outputDir, retrieve)[0] == InvalidUrl(bad)
    ensures SavedFiles(Outcomes([bad, good], outputDir, retrieve)) == [OutputFile(outputDir, good)]
  {
    UrlListOfClean([bad, good]);
    OutcomesPair(bad, good, outputDir, retrieve);
    InvalidUrlNotSaved(bad, outputDir, retrieve);
    TransferredUrlSaved(good, outputDir, retrieve);
    var saved := Saved(ArxivId(good), PdfUrl(good), OutputFile(outputDir, good));
    SavedFilesSnoc([], InvalidUrl(bad));
    SavedFilesSnoc([InvalidUrl(bad)], saved);
    assert [] + [InvalidUrl(bad)] == [InvalidUrl(bad)];
    assert [InvalidUrl(bad)] + [saved] == [InvalidUrl(bad), saved];
  }
}
