# OpenScience paper pipeline — a Dafny model of its core

OpenScience downloads arXiv papers, sends each PDF to the GROBID service and
reduces the TEI XML that GROBID returns to a flat record: title, abstract,
figure count and outbound links. It then draws summaries such as a keyword
cloud and a table of links per paper. This project models the parts of that
pipeline with real logic and proves what they promise:

- `grobid.dfy` (module `Grobid`) models `extract_paper_info`. The five
  ElementTree queries become functions over a parsed TEI tree. The two
  link-collecting loops become methods proved against those functions.
  `dict.fromkeys` becomes an order-preserving dedup. The batch loop of
  `process_dataset` is a method whose GROBID call is a function parameter.
- `tei.dfy` (module `Tei`) models the parsed document as ElementTree holds it.
  An element has a name, attributes, `text`, `tail` and children. The module
  gives the queries the extractor uses: the `.//X` descendant step, `find`,
  `findall`, the `[@attr]` filter, the `/X` child step and `itertext`.
- `paper_download.dfy` (module `PaperDownload`) models `download_arxiv_papers`.
  It covers the URL list read from the file, the `/abs/` check, the arXiv id,
  the PDF URL and the output path. The download loop is a method that gives
  every URL one outcome, and the transfer is a function parameter.
- `utils.dfy` (module `Utils`) models the `cell_text` rows that
  `show_paper_links` builds with its nested loops, and the text
  `draw_keyword_cloud` joins.
- `strings.dfy` (module `Strings`) holds the Python `str` operations these
  rely on: `isspace`, `strip`, `startswith`, `endswith`, `in`, `replace`,
  `rfind`, `split('/')[-1]` and `join`.
- `wrappers.dfy` (module `Wrappers`) holds the `Option` type.

Two behaviours of the code worth noting, which the model follows:

- The URL list drops only blank lines. A comment line is kept, and it is then
  reported as an invalid URL unless it contains `/abs/`.
- The abstract is only stripped at both ends. Inner whitespace is not
  normalised.

## Model

| member | source | states |
|---|---|---|
| Grobid.ExtractPaperInfo | src/grobid.py:36-86 | The record it builds is `Extract(root)`: the title (`TitleIsFirst`, `TitleAbsent`), the abstract (`AbstractIsAllText`, `AbstractAbsent`), the figure count (`FiguresCountAllDepths`) and the deduplicated links (`LinksExactly`, `LinksFirstOccurrenceOrder`) |
| Grobid.AppendRefTargets | src/grobid.py:66-70 | The first loop leaves the list it was given in place and appends the accepted `ref` targets in document order |
| Grobid.AppendPtrTargets | src/grobid.py:73-77 | The second loop appends the http(s) `ptr` targets in document order after what is already there |
| Grobid.TitleIsFirst | src/grobid.py:50-51 | When some `titleStmt` below the root has a `title` child, the title element is the first `title` child of the first `titleStmt` in document order that has one, and the title is its direct text when that is non-empty, else "No title" |
| Grobid.MyPaperTitle | src/grobid.py:50-51 | A `TEI/teiHeader/fileDesc/titleStmt/title` document with the text "My Paper Title" is reported with that title |
| Grobid.TitleIsDirectText | src/grobid.py:50-51 | A title other than "No title" is the direct text of a `title` child of some `titleStmt` below the root |
| Grobid.TitleAbsent | src/grobid.py:50-51 | Without any `titleStmt/title` in the document, the title is "No title" |
| Grobid.TitleIgnoresNestedText | src/grobid.py:51 | Text nested in children of the title does not count: a first title with no direct text gives "No title" |
| Grobid.AbstractTrimmed | src/grobid.py:57 | The abstract never starts or ends with whitespace |
| Grobid.AbstractAbsent | src/grobid.py:54-56 | With no `abstract` element below the root, the abstract is `""` |
| Grobid.AbstractIsAllText | src/grobid.py:54-57 | The abstract is all character data of the first `abstract` element in document order, stripped; that element's own tail is excluded |
| Grobid.FiguresCountAllDepths | src/grobid.py:60-61 | `figures_count` equals the number of TEI `figure` elements strictly below the root, counted at every depth |
| Grobid.RefsMember | src/grobid.py:66 | `findall('.//tei:ref[@target]')` yields exactly the TEI `ref` elements below the root that carry `target` |
| Grobid.PtrsMember | src/grobid.py:73 | The same for `ptr` elements |
| Grobid.AcceptRefTargetMeaning | src/grobid.py:69 | The `ref` test with Python's `A or (B and C)` precedence accepts exactly the http(s) URLs other than GROBID's home page |
| Grobid.RefLinksMember | src/grobid.py:67-70 | A string is appended by the first loop if and only if it is the target of some `ref` and passes the test |
| Grobid.PtrLinksMember | src/grobid.py:74-77 | A string is appended by the second loop if and only if it is the http(s) target of some `ptr` |
| Grobid.LinksExactly | src/grobid.py:63-79 | Every link is a non-empty http(s) URL. The links are exactly the accepted `ref` targets and the http(s) `ptr` targets, in both directions |
| Grobid.GrobidHomeOnlyViaPtr | src/grobid.py:66-77 | GROBID's home page is among the links if and only if some `ptr` targets it; as a `ref` target it is always dropped |
| Grobid.Dedup | src/grobid.py:79 | `list(dict.fromkeys(s))` has no repeats, holds exactly the elements of `s` and is no longer than `s` |
| Grobid.DedupFirstOccurrenceOrder | src/grobid.py:79 | Dedup keeps elements in the order of their first occurrences in the input |
| Grobid.DedupOfDistinct | src/grobid.py:79 | A list without repeats comes out of dedup unchanged |
| Grobid.LinksFirstOccurrenceOrder | src/grobid.py:63-79 | The links have no repeats and are ordered by first occurrence among the accepted `ref` targets followed by the accepted `ptr` targets |
| Grobid.EmptyDocument | src/grobid.py:50-86 | A document with no title text and no abstract, figure, targeted `ref` or targeted `ptr` gives `("No title", "", 0, [])` |
| Strings.RFind | src/grobid.py:120 | `rfind` returns -1 or an index of the character, and no occurrence lies after it |
| Grobid.StemOfPdf | src/grobid.py:120 | The `paper_id` of a file `base.pdf` is `base` |
| Grobid.Processed | src/grobid.py:112-126 | The batch yields at most one record per file |
| Grobid.ProcessDataset | src/grobid.py:112-126 | The loop's results are `Processed(files)`: one record per file GROBID handled, in file order, each with its `filename` and `paper_id` attached |
| Grobid.Succeeded | src/grobid.py:115-124 | Only files that GROBID parsed are listed as handled |
| Grobid.ProcessedAppend | src/grobid.py:114-121 | The batch keeps file order: processing two lists of files one after the other concatenates their results |
| Grobid.ProcessedLength | src/grobid.py:118-124 | There is exactly one result per handled file; failed files contribute nothing |
| Grobid.ProcessedAt | src/grobid.py:118-121 | The k-th result is the record extracted from the k-th handled file, with `filename` = that name and `paper_id` = its stem |
| Grobid.SucceededMember | src/grobid.py:115-124 | A file is handled if and only if it is in the input and GROBID parsed it |
| Tei.Iter | src/grobid.py:60 | An element's `iter()` starts with the element itself |
| Tei.DescendantsAreBelow | src/grobid.py:60 | The `.//` step yields exactly the elements strictly below the start, at every depth |
| Tei.RootNotDescendant | src/grobid.py:54 | The element a `.//` query starts from is never among its results |
| Tei.Named | src/grobid.py:60 | The name filter never yields more than it is given |
| Tei.NamedMember | src/grobid.py:60 | The name filter keeps exactly the elements with that name |
| Tei.WithAttr | src/grobid.py:66 | The `[@key]` filter never yields more than it is given |
| Tei.WithAttrMember | src/grobid.py:66 | The `[@key]` filter keeps exactly the elements that carry `key` |
| Tei.FindAllMember | src/grobid.py:60 | `findall('.//q')` yields exactly the elements named `q` below the start |
| Tei.FindNone | src/grobid.py:54 | `find('.//q')` finds nothing exactly when no element below the start is named `q` |
| Tei.FindFirst | src/grobid.py:54 | `find('.//q')` yields an element named `q` that comes before every other `q` element in document order below the start |
| Tei.NamedFirst | src/grobid.py:54 | The first result of the name filter is the earliest element of its input with that name |
| Tei.ChildStepMember | src/grobid.py:50 | Whatever the `/q` step yields is a child named `q` of one of the parents it is given |
| Tei.ChildStepComplete | src/grobid.py:50 | Every child named `q` of one of the parents is yielded by the `/q` step |
| Tei.ChildStepFirst | src/grobid.py:50 | The first result of the `/q` step is the first `q` child of the first parent that has one |
| Tei.Itertext | src/grobid.py:57 | `itertext()` yields only non-empty strings |
| Tei.ItertextJoin | src/grobid.py:57 | `''.join(itertext())` is all character data inside the element, children's tails included, in document order |
| Tei.ItertextReachesBelow | src/grobid.py:57 | The text of every element below, at any depth, is among the pieces `itertext()` yields |
| Tei.ItertextIgnoresTail | src/grobid.py:57 | `itertext()` does not depend on the element's own tail |
| Tei.FindAllCount | src/grobid.py:60-61 | `len(findall('.//q'))` equals the number of elements named `q` in the tree below, counted subtree by subtree |
| Strings.Strip | src/grobid.py:57 | `strip()` gives no longer a string, with neither end whitespace |
| Strings.LStripSpan | src/paper_download.py:25 | What `lstrip` removes is a whitespace prefix, and the rest is a suffix of the input |
| Strings.RStripSpan | src/paper_download.py:25 | What `rstrip` removes is a whitespace suffix |
| Strings.StripUnique | src/paper_download.py:25 | For whitespace `a` and `b` and a trimmed `m`, `strip(a + m + b)` is `m` |
| Strings.StripAllSpace | src/paper_download.py:25 | A whitespace-only line strips to `""` |
| Strings.StripIdempotent | src/paper_download.py:25 | Stripping twice is stripping once |
| Strings.ReplaceAll | src/paper_download.py:35 | `replace` with a pattern and a replacement of equal length keeps the length |
| Strings.ReplaceAllNoMatch | src/paper_download.py:35 | A string without the pattern is left unchanged |
| Strings.ReplaceAllFirstMatch | src/paper_download.py:35 | When the first occurrence of the pattern is right after `p`, `replace` keeps `p`, substitutes that occurrence and goes on with the rest |
| Strings.LastSegment | src/paper_download.py:33 | `split('/')[-1]` contains no `/` and is no longer than the input |
| Strings.LastSegmentIsSuffix | src/paper_download.py:33 | The last segment is a suffix of the URL, and it is either the whole URL or preceded by a `/` |
| Strings.LastSegmentIsLastSplit | src/paper_download.py:33 | The last segment equals the last piece of a left-to-right `split` at every separator |
| Strings.LastSegmentNoSep | src/paper_download.py:33 | A string without the separator is its own last segment |
| Strings.LastSegmentAfterSep | src/paper_download.py:33 | Everything up to and including a separator does not affect the last segment |
| Strings.JoinLength | src/utils.py:14 | A join is as long as its pieces plus one separator between each two |
| Strings.JoinAppend | src/utils.py:14 | Joining two non-empty lists puts exactly one separator between their joins |
| PaperDownload.UrlOf | src/paper_download.py:25 | One line contributes at most one URL |
| PaperDownload.UrlList | src/paper_download.py:25 | There are never more URLs than lines |
| PaperDownload.UrlListClean | src/paper_download.py:25 | Every listed URL is non-empty and has no surrounding whitespace |
| PaperDownload.UrlListMember | src/paper_download.py:25 | A string is listed if and only if it is the non-empty `strip()` of some line |
| PaperDownload.UrlListAppend | src/paper_download.py:25 | The URL list keeps file order: the list of concatenated lines is the concatenation of the lists |
| PaperDownload.UrlListOfClean | src/paper_download.py:25 | Lines that are already non-blank and stripped are listed unchanged |
| Strings.StripTrimmed | src/paper_download.py:25 | A trimmed string is its own `strip()` |
| PaperDownload.AbsUrlId | src/paper_download.py:33 | The id of `prefix/abs/id`, where `id` has no `/`, is `id` |
| PaperDownload.PdfUrlShape | src/paper_download.py:35 | The PDF URL is exactly four characters longer than the page URL and ends in `.pdf` |
| PaperDownload.AbsUrlPdf | src/paper_download.py:35 | The PDF URL of `prefix/abs/id` is `prefix/pdf/id.pdf` when that `/abs/` is the first one |
| PaperDownload.ArxivUrlForm | src/paper_download.py:32-35 | An abstract-page URL `prefix/abs/id` passes the `/abs/` check, has id `id` and PDF URL `prefix/pdf/id.pdf` |
| PaperDownload.JoinPathLastSegment | src/paper_download.py:36 | `os.path.join(dir, name)` for a relative, separator-free `name` ends in `/name`, or is `name` when `dir` is empty |
| PaperDownload.JoinPathPrefix | src/paper_download.py:36 | `os.path.join(dir, name)` for a relative `name` starts with `dir` |
| PaperDownload.PdfNameRelative | src/paper_download.py:36 | The file name `arxiv_id + ".pdf"` holds no `/` |
| PaperDownload.OutputFileName | src/paper_download.py:36 | The output path lies in the output directory and its last segment is `arxiv_id + ".pdf"` |
| PaperDownload.DownloadArxivPapers | src/paper_download.py:25-48 | The loop gives every listed URL its outcome, in order, carrying on after failures, and reports the files saved |
| PaperDownload.OutcomesAt | src/paper_download.py:30-48 | There is exactly one outcome per URL, and the i-th outcome is that of the i-th URL |
| PaperDownload.SavedFilesMember | src/paper_download.py:41-43 | A file is written if and only if some outcome is `Saved` with that output path |
| PaperDownload.InvalidUrlNotSaved | src/paper_download.py:44-45 | A URL without `/abs/` is reported invalid and nothing is saved for it |
| PaperDownload.TransferredUrlSaved | src/paper_download.py:32-43 | An abstract-page URL whose transfer succeeds is saved under its derived id, PDF URL and output path |
| PaperDownload.OneInvalidOneValid | src/paper_download.py:30-48 | A malformed URL followed by a good one gives an invalid-URL report first and exactly one file written, at the expected path |
| Utils.Zip | src/utils.py:80 | `zip` pairs the i-th id with the i-th link list, and the pairs stop at the shorter input |
| Utils.ShowPaperLinksCells | src/utils.py:78-88 | The nested loops build exactly `CellText(paper_ids, paper_links)` |
| Utils.AppendPaperRows | src/utils.py:82-88 | One pass of the outer loop appends that paper's rows, and only them |
| Utils.PaperRowsAt | src/utils.py:82-88 | A paper's rows are `[pid, links[0]]` then `["", l]` for each further link, in order, or the single row `[pid, "No links"]`; there are `max(1, len(links))` of them |
| Utils.RowsAppend | src/utils.py:80-88 | Each paper's rows come before the next paper's: the rows of concatenated paper lists are the concatenation of their rows |
| Utils.RowsCount | src/utils.py:79-88 | The table has one row per link, plus one per paper without links |
| Utils.PaperBlock | src/utils.py:80-88 | Paper k's rows form one block, between the rows of the papers before it and those after it |
| Utils.RowOfLink | src/utils.py:80-88 | Link j of paper k is row `TotalRows(papers[..k]) + j`, carrying the id only on the paper's first row |
| Utils.CellTextTruncates | src/utils.py:80 | Only the first `min(len(paper_ids), len(paper_links))` papers produce rows |
| Utils.KeywordTextLength | src/utils.py:14 | The keyword text is empty without abstracts; otherwise its length is the sum of their lengths plus `n - 1` |
| Utils.KeywordTextAppend | src/utils.py:14 | One more abstract extends the keyword text by one space and that abstract |

## Left out

- The GROBID client call, its options and the `xml_content[2]` indexing (src/grobid.py:23-33): these are an external HTTP service. The GROBID call is the parameter `grobid` of `ProcessDataset`. Its `Failed` reply stands for any exception in the call or in parsing.
- Parsing XML text with `ET.fromstring` (src/grobid.py:46): documents are given as trees. Comments and processing instructions are not represented, and ill-formed input has no representation.
- Creating the GROBID client and exiting on failure, `Path.glob` and the progress and error prints (src/grobid.py:101-110, 116, 124): the PDF files are given as a list of names in enumeration order.
- SSL and certifi setup, opening the list file and `urllib.request.urlretrieve` (src/paper_download.py:16-24, 41): the file is given as its lines, and the transfer is the parameter `retrieve`. A partial file left behind by a failed transfer is not modelled.
- JoinPath, OutputFile, JoinPathLastSegment, OutputFileName: only POSIX path joining (`posixpath.join`, `/` as the separator) is modelled. On Windows `os.path.join` follows `ntpath`, with `\` separators and drive rules, and the last-`/`-segment property of the output path is not promised there.
- The progress and result prints of the download loop (src/paper_download.py:27, 38, 43, 45, 48): they are replaced by the `Outcome` recorded for each URL.
- All matplotlib and wordcloud rendering, the float figure height, table styling and `visualize_figures_per_article`: these are library calls and floating point.
- A table row is a two-field record rather than a two-element list, so every row has exactly two cells by construction.
- `src/main.py` is not part of this model: it is argument parsing and directory setup.
- `tests/test_utils.py` does not match the source: it calls functions with other arities and argument orders, and a function the source lacks. The model follows the source.
- Python's whitespace set for `strip()` is listed character by character, the ASCII ones and the Unicode space separators. Any change to that set in a later Unicode version is not followed.
