/**
 The GROBID extractor: reduction of a TEI document (the XML GROBID returns
 for a PDF) to a paper record of four fields, and the batch loop that runs
 it over the PDF files of a dataset directory.
 */
module Grobid {
  import opened Wrappers
  import opened Strings
  import opened Tei

  /** The TEI P5 namespace bound to the `tei:` prefix in every query. */
  const TeiNs := "http://www.tei-c.org/ns/1.0"

  const TitleStmtName := QName(TeiNs, "titleStmt")
  const TitleName := QName(TeiNs, "title")
  const AbstractName := QName(TeiNs, "abstract")
  const FigureName := QName(TeiNs, "figure")
  const RefName := QName(TeiNs, "ref")
  const PtrName := QName(TeiNs, "ptr")

  /** The title reported when the document gives none. */
  const NoTitle := "No title"

  /** GROBID's own home page, dropped when it is the target of a `ref`. */
  const GrobidHome := "https://github.com/kermitt2/grobid"

  /** What `extract_paper_info` returns. */
  datatype PaperInfo = PaperInfo(title: string, abstractText: string, figuresCount: nat, links: seq<string>)

  // ---------------------------------------------------------------------
  // Title, abstract, figures
  // ---------------------------------------------------------------------

  /** `root.find('.//tei:titleStmt/tei:title', ns)`. */
  function TitleElement(root: Element): Option<Element> {
    var all := ChildStep(FindAll(root, TitleStmtName), TitleName);
    if all == [] then None else Some(all[0])
  }

  /** The `title` field: the title element's own text when it is present
      and non-empty, otherwise the sentinel. */
  function Title(root: Element): string {
    match TitleElement(root)
    case Some(t) => if t.text.Some? && t.text.value != "" then t.text.value else NoTitle
    case None => NoTitle
  }

  /** The `abstract` field: the stripped `''.join` of the first abstract's
      `itertext()`, or `""` when the document has no abstract. */
  function AbstractText(root: Element): string {
    match Find(root, AbstractName)
    case None => ""
    case Some(a) => Strip(Join("", Itertext(a)))
  }

  /** The `figures_count` field: `len(root.findall('.//tei:figure', ns))`. */
  function FiguresCount(root: Element): nat {
    |FindAll(root, FigureName)|
  }

  // ---------------------------------------------------------------------
  // Links
  // ---------------------------------------------------------------------

  /** `root.findall('.//tei:ref[@target]', ns)`. */
  function Refs(root: Element): seq<Element> {
    WithAttr(FindAll(root, RefName), "target")
  }

  /** `root.findall('.//tei:ptr[@target]', ns)`. */
  function Ptrs(root: Element): seq<Element> {
    WithAttr(FindAll(root, PtrName), "target")
  }

  /** `findall('.//tei:ref[@target]')` finds exactly the TEI `ref` elements
      below the root that carry a `target` attribute. */
  lemma RefsMember(root: Element, x: Element)
    ensures x in Refs(root) <==> Below(x, root) && x.name == RefName && "target" in x.attrib
  {
    WithAttrMember(FindAll(root, RefName), "target", x);
    FindAllMember(root, RefName, x);
  }

  /** Likewise for `findall('.//tei:ptr[@target]')`. */
  lemma PtrsMember(root: Element, x: Element)
    ensures x in Ptrs(root) <==> Below(x, root) && x.name == PtrName && "target" in x.attrib
  {
    WithAttrMember(FindAll(root, PtrName), "target", x);
    FindAllMember(root, PtrName, x);
  }

  predicate IsHttpUrl(t: string) {
    StartsWith(t, "http://") || StartsWith(t, "https://")
  }

  /** The test applied to a `ref` target, with Python's precedence:
      `target and (A or (B and C))`, so the home-page exclusion binds only to
      the `https://` alternative. */
  predicate AcceptRefTarget(target: Option<string>) {
    && target.Some?
    && target.value != ""
    && (|| StartsWith(target.value, "http://")
        || (StartsWith(target.value, "https://") && target.value != GrobidHome))
  }

  /** The test applied to a `ptr` target: no exclusion. */
  predicate AcceptPtrTarget(target: Option<string>) {
    && target.Some?
    && target.value != ""
    && (StartsWith(target.value, "http://") || StartsWith(target.value, "https://"))
  }

  /** The targets the first loop appends, in the order of `refs`. */
  function RefLinks(refs: seq<Element>): seq<string> {
    if refs == [] then []
    else
      var target := Get(refs[|refs| - 1], "target");
      RefLinks(refs[..|refs| - 1]) + (if AcceptRefTarget(target) then [target.value] else [])
  }

  /** The targets the second loop appends, in the order of `ptrs`. */
  function PtrLinks(ptrs: seq<Element>): seq<string> {
    if ptrs == [] then []
    else
      var target := Get(ptrs[|ptrs| - 1], "target");
      PtrLinks(ptrs[..|ptrs| - 1]) + (if AcceptPtrTarget(target) then [target.value] else [])
  }

  /** The `links` list before `dict.fromkeys`. */
  function Candidates(root: Element): seq<string> {
    RefLinks(Refs(root)) + PtrLinks(Ptrs(root))
  }

  predicate NoDuplicates(s: seq<string>) {
    forall i, j :: 0 <= i < j < |s| ==> s[i] != s[j]
  }

  /** `list(dict.fromkeys(s))`: each element kept at its first occurrence. */
  function Dedup(s: seq<string>): (r: seq<string>)
    ensures NoDuplicates(r)
    ensures forall x :: x in r <==> x in s
    ensures |r| <= |s|
  {
    if s == [] then []
    else
      var r := Dedup(s[..|s| - 1]);
      if s[|s| - 1] in r then r else r + [s[|s| - 1]]
  }

  /** The `links` field: `list(dict.fromkeys(links))`. */
  function Links(root: Element): seq<string> {
    Dedup(Candidates(root))
  }

  /** `extract_paper_info` on an already parsed document. */
  function Extract(root: Element): PaperInfo {
    PaperInfo(Title(root), AbstractText(root), FiguresCount(root), Links(root))
  }

  /** The first loop of `extract_paper_info`: append the accepted target of
      each `ref`, in document order. */
  method AppendRefTargets(links: seq<string>, refs: seq<Element>) returns (r: seq<string>)
    ensures r == links + RefLinks(refs)
  {
    r := links;
    for i := 0 to |refs|
      invariant r == links + RefLinks(refs[..i])
    {
      var target := Get(refs[i], "target");
      assert refs[..i + 1][..i] == refs[..i] && refs[..i + 1][i] == refs[i];
      if AcceptRefTarget(target) {
        r := r + [target.value];
      }
    }
    assert refs[..|refs|] == refs;
  }

  /** The second loop: append the http(s) target of each `ptr`. */
  method AppendPtrTargets(links: seq<string>, ptrs: seq<Element>) returns (r: seq<string>)
    ensures r == links + PtrLinks(ptrs)
  {
    r := links;
    for j := 0 to |ptrs|
      invariant r == links + PtrLinks(ptrs[..j])
    {
      var target := Get(ptrs[j], "target");
      assert ptrs[..j + 1][..j] == ptrs[..j] && ptrs[..j + 1][j] == ptrs[j];
      if AcceptPtrTarget(target) {
        r := r + [target.value];
      }
    }
    assert ptrs[..|ptrs|] == ptrs;
  }

  /** `extract_paper_info` on a parsed document. */
  method ExtractPaperInfo(root: Element) returns (info: PaperInfo)
    ensures info == Extract(root)
  {
    var title := Title(root);
    var abstractText := AbstractText(root);
    var figuresCount := FiguresCount(root);
    var links := AppendRefTargets([], Refs(root));
    links := AppendPtrTargets(links, Ptrs(root));
    assert links == Candidates(root);
    links := Dedup(links);
    info := PaperInfo(title, abstractText, figuresCount, links);
  }

  // ---------------------------------------------------------------------
  // Properties of the extraction
  // ---------------------------------------------------------------------

  /** A non-default title is the direct text of a `title` child of some
      `titleStmt` below the root. */
  lemma TitleIsDirectText(root: Element)
    requires Title(root) != NoTitle
    ensures exists s, t :: Below(s, root) && s.name == TitleStmtName && t in s.children
              && t.name == TitleName && t.text == Some(Title(root))
  {
    var stmts := FindAll(root, TitleStmtName);
    var t := ChildStep(stmts, TitleName)[0];
    ChildStepMember(stmts, TitleName, t);
    var i :| 0 <= i < |stmts| && t in stmts[i].children;
    FindAllMember(root, TitleStmtName, stmts[i]);
  }

  /** A document with some `titleStmt/title` has a title element: the first
      `title` child of the first `titleStmt`, in document order, that has
      one. The title is that element's direct text when it is non-empty, and
      "No title" otherwise. */
  lemma TitleIsFirst(root: Element, s: Element, t: Element)
    requires Below(s, root) && s.name == TitleStmtName && t in s.children && t.name == TitleName
    ensures TitleElement(root).Some?
    ensures FirstChildNamed(FindAll(root, TitleStmtName), TitleName, TitleElement(root).value)
    ensures Title(root) == (if Chars(TitleElement(root).value.text) != "" then Chars(TitleElement(root).value.text) else NoTitle)
  {
    var stmts := FindAll(root, TitleStmtName);
    FindAllMember(root, TitleStmtName, s);
    var k :| 0 <= k < |stmts| && stmts[k] == s;
    ChildStepComplete(stmts, TitleName, k, t);
    ChildStepFirst(stmts, TitleName);
  }

  /** The header of a minimal GROBID document: `teiHeader/fileDesc/titleStmt/title`
      with the given title text. */
  function HeaderWithTitle(text: string): Element {
    var title := Element(TitleName, map[], Some(text), None, []);
    var stmt := Element(TitleStmtName, map[], None, None, [title]);
    var fileDesc := Element(QName(TeiNs, "fileDesc"), map[], None, None, [stmt]);
    Element(QName(TeiNs, "teiHeader"), map[], None, None, [fileDesc])
  }

  /** A `TEI` document whose header carries the title "My Paper Title" is
      reported with that title. */
  lemma MyPaperTitle()
    ensures Title(Element(QName(TeiNs, "TEI"), map[], None, None, [HeaderWithTitle("My Paper Title")])) == "My Paper Title"
  {
    var header := HeaderWithTitle("My Paper Title");
    var root := Element(QName(TeiNs, "TEI"), map[], None, None, [header]);
    var fileDesc := header.children[0];
    var stmt := fileDesc.children[0];
    var title := stmt.children[0];
    IterAllOne(title);
    assert Iter(stmt) == [stmt, title];
    IterAllOne(stmt);
    assert Iter(fileDesc) == [fileDesc, stmt, title];
    IterAllOne(fileDesc);
    assert Iter(header) == [header, fileDesc, stmt, title];
    IterAllOne(header);
    assert Descendants(root) == [header, fileDesc, stmt, title];
    assert header.name != TitleStmtName by {
      assert header.name.local[1] != TitleStmtName.local[1];
    }
    assert fileDesc.name != TitleStmtName;
    assert title.name != TitleStmtName;
    assert Named([title], TitleStmtName) == [];
    assert Named([stmt, title], TitleStmtName) == [stmt];
    assert Named([fileDesc, stmt, title], TitleStmtName) == [stmt];
    assert FindAll(root, TitleStmtName) == [stmt];
    assert Named([title], TitleName) == [title];
    assert ChildStep([stmt], TitleName) == [title];
  }

  /** Without any `titleStmt/title` below the root, the title is the
      sentinel. */
  lemma TitleAbsent(root: Element)
    requires forall s, t :: Below(s, root) && s.name == TitleStmtName && t in s.children ==> t.name != TitleName
    ensures Title(root) == NoTitle
  {
    var stmts := FindAll(root, TitleStmtName);
    var all := ChildStep(stmts, TitleName);
    if all != [] {
      var t := all[0];
      ChildStepMember(stmts, TitleName, t);
      var i :| 0 <= i < |stmts| && t in stmts[i].children;
      FindAllMember(root, TitleStmtName, stmts[i]);
    }
  }

  /** Text nested inside the title element does not count: a first title
      with no direct text yields the sentinel. */
  lemma TitleIgnoresNestedText(root: Element)
    requires TitleElement(root).Some? && TitleElement(root).value.text.None?
    ensures Title(root) == NoTitle
  {
  }

  /** The abstract never starts or ends with whitespace. */
  lemma AbstractTrimmed(root: Element)
    ensures Trimmed(AbstractText(root))
  {
  }

  /** No `abstract` element: empty abstract. */
  lemma AbstractAbsent(root: Element)
    requires forall x :: Below(x, root) ==> x.name != AbstractName
    ensures AbstractText(root) == ""
  {
    if FindAll(root, AbstractName) != [] {
      FindAllMember(root, AbstractName, FindAll(root, AbstractName)[0]);
    }
  }

  /** The abstract is all character data of the first abstract element,
      stripped; the element's own tail is not part of it. */
  lemma AbstractIsAllText(root: Element)
    requires Find(root, AbstractName).Some?
    ensures AbstractText(root) == Strip(AllText(Find(root, AbstractName).value))
  {
    ItertextJoin(Find(root, AbstractName).value);
  }

  /** `figures_count` counts every TEI `figure` below the root, at any depth. */
  lemma FiguresCountAllDepths(root: Element)
    ensures FiguresCount(root) == CountBelow(root, FigureName)
  {
    FindAllCount(root, FigureName);
  }

  /** The `ref` test as written equals "an http(s) URL other than GROBID's
      home page". */
  lemma AcceptRefTargetMeaning(t: string)
    ensures AcceptRefTarget(Some(t)) <==> IsHttpUrl(t) && t != GrobidHome
  {
    if StartsWith(t, "http://") {
      assert t[4] == ':';
      assert GrobidHome[4] == 's';
    }
  }

  lemma {:induction false} RefLinksMember(refs: seq<Element>, l: string)
    ensures l in RefLinks(refs) <==>
              exists k :: 0 <= k < |refs| && Get(refs[k], "target") == Some(l) && AcceptRefTarget(Some(l))
  {
    if refs != [] {
      var n := |refs| - 1;
      var prefix := refs[..n];
      RefLinksMember(prefix, l);
      if l in RefLinks(refs) {
        if l in RefLinks(prefix) {
          var k :| 0 <= k < |prefix| && Get(prefix[k], "target") == Some(l) && AcceptRefTarget(Some(l));
          assert prefix[k] == refs[k];
        } else {
          assert Get(refs[n], "target") == Some(l) && AcceptRefTarget(Some(l));
        }
      }
      if exists k :: 0 <= k < |refs| && Get(refs[k], "target") == Some(l) && AcceptRefTarget(Some(l)) {
        var k :| 0 <= k < |refs| && Get(refs[k], "target") == Some(l) && AcceptRefTarget(Some(l));
        if k < n {
          assert prefix[k] == refs[k];
        }
      }
    }
  }

  lemma {:induction false} PtrLinksMember(ptrs: seq<Element>, l: string)
    ensures l in PtrLinks(ptrs) <==>
              exists k :: 0 <= k < |ptrs| && Get(ptrs[k], "target") == Some(l) && AcceptPtrTarget(Some(l))
  {
    if ptrs != [] {
      var n := |ptrs| - 1;
      var prefix := ptrs[..n];
      PtrLinksMember(prefix, l);
      if l in PtrLinks(ptrs) {
        if l in PtrLinks(prefix) {
          var k :| 0 <= k < |prefix| && Get(prefix[k], "target") == Some(l) && AcceptPtrTarget(Some(l));
          assert prefix[k] == ptrs[k];
        } else {
          assert Get(ptrs[n], "target") == Some(l) && AcceptPtrTarget(Some(l));
        }
      }
      if exists k :: 0 <= k < |ptrs| && Get(ptrs[k], "target") == Some(l) && AcceptPtrTarget(Some(l)) {
        var k :| 0 <= k < |ptrs| && Get(ptrs[k], "target") == Some(l) && AcceptPtrTarget(Some(l));
        if k < n {
          assert prefix[k] == ptrs[k];
        }
      }
    }
  }

  /** Every link is a non-empty http(s) URL, and the links are exactly the
      accepted `ref` targets and the http(s) `ptr` targets. */
  lemma LinksExactly(root: Element, l: string)
    ensures l in Links(root) ==> l != "" && IsHttpUrl(l)
    ensures l in Links(root) <==>
              || (IsHttpUrl(l) && l != GrobidHome && exists r :: r in Refs(root) && Get(r, "target") == Some(l))
              || (IsHttpUrl(l) && exists p :: p in Ptrs(root) && Get(p, "target") == Some(l))
  {
    RefLinksMember(Refs(root), l);
    PtrLinksMember(Ptrs(root), l);
    AcceptRefTargetMeaning(l);
  }

  /** GROBID's home page is kept only when some `ptr` targets it: as a
      `ref` target it is always dropped. */
  lemma GrobidHomeOnlyViaPtr(root: Element)
    ensures GrobidHome in Links(root) <==>
              exists p :: p in Ptrs(root) && Get(p, "target") == Some(GrobidHome)
  {
    GrobidHomeIsHttps();
    LinksExactly(root, GrobidHome);
  }

  lemma GrobidHomeIsHttps()
    ensures IsHttpUrl(GrobidHome)
  {
    assert GrobidHome[..8] == "https://";
  }

  /** Index of the first occurrence of `x` in `s`. */
  function IndexOf(s: seq<string>, x: string): (k: nat)
    requires x in s
    ensures k < |s| && s[k] == x && x !in s[..k]
  {
    if s[0] == x then 0 else 1 + IndexOf(s[1..], x)
  }

  lemma {:induction false} IndexOfPrefix(s: seq<string>, n: nat, x: string)
    requires n <= |s| && x in s[..n]
    ensures IndexOf(s, x) == IndexOf(s[..n], x)
  {
    var k' := IndexOf(s[..n], x);
    assert s[..n][..k'] == s[..k'];
  }

  /** `dict.fromkeys` keeps the first occurrences in their original order. */
  lemma {:induction false} DedupFirstOccurrenceOrder(s: seq<string>, i: nat, j: nat)
    requires i < j < |Dedup(s)|
    ensures IndexOf(s, Dedup(s)[i]) < IndexOf(s, Dedup(s)[j])
  {
    var n := |s| - 1;
    var r := Dedup(s[..n]);
    assert s == s[..n] + [s[n]];
    if j < |r| {
      DedupFirstOccurrenceOrder(s[..n], i, j);
      IndexOfPrefix(s, n, r[i]);
      IndexOfPrefix(s, n, r[j]);
    } else {
      assert Dedup(s)[j] == s[n] && s[n] !in s[..n];
      IndexOfPrefix(s, n, r[i]);
      assert IndexOf(s, s[n]) == n;
    }
  }

  /** A list without repeats is left unchanged by `dict.fromkeys`. */
  lemma {:induction false} DedupOfDistinct(s: seq<string>)
    requires NoDuplicates(s)
    ensures Dedup(s) == s
  {
    if s != [] {
      var n := |s| - 1;
      DedupOfDistinct(s[..n]);
      assert s[n] !in s[..n];
      assert s == s[..n] + [s[n]];
    }
  }

  /** The links are free of repeats and ordered by first occurrence among
      the accepted `ref` targets followed by the accepted `ptr` targets. */
  lemma LinksFirstOccurrenceOrder(root: Element, i: nat, j: nat)
    requires i < j < |Links(root)|
    ensures NoDuplicates(Links(root))
    ensures IndexOf(Candidates(root), Links(root)[i]) < IndexOf(Candidates(root), Links(root)[j])
  {
    DedupFirstOccurrenceOrder(Candidates(root), i, j);
  }

  /** A document with no title text and no abstract, figure, `ref` or `ptr`
      element yields the default record. */
  lemma EmptyDocument(root: Element)
    requires forall x :: Below(x, root) ==> x.name != AbstractName && x.name != FigureName
    requires forall x :: Below(x, root) && (x.name == RefName || x.name == PtrName) ==> "target" !in x.attrib
    requires forall s, t :: Below(s, root) && s.name == TitleStmtName && t in s.children && t.name == TitleName
               ==> Chars(t.text) == ""
    ensures Extract(root) == PaperInfo(NoTitle, "", 0, [])
  {
    AbstractAbsent(root);
    if FindAll(root, FigureName) != [] {
      FindAllMember(root, FigureName, FindAll(root, FigureName)[0]);
    }
    if Refs(root) != [] {
      RefsMember(root, Refs(root)[0]);
    }
    if Ptrs(root) != [] {
      PtrsMember(root, Ptrs(root)[0]);
    }
    if Title(root) != NoTitle {
      TitleIsDirectText(root);
    }
  }

  // ---------------------------------------------------------------------
  // process_dataset
  // ---------------------------------------------------------------------

  /** What GROBID gives back for one PDF: a parsed TEI tree, or a failure
      (the service call raised, or its XML did not parse). */
  datatype Reply = Failed(error: string) | Parsed(root: Element)

  /** One entry of `process_dataset`'s result: the extracted fields plus
      `filename` and `paper_id`. */
  datatype PaperRecord = PaperRecord(
    title: string, abstractText: string, figuresCount: nat, links: seq<string>,
    filename: string, paperId: string)

  /** `Path(name).stem`: the name without its last suffix, where a leading
      dot or a trailing dot does not start a suffix. */
  function Stem(name: string): string {
    var i := RFind(name, '.');
    if 0 < i < |name| - 1 then name[..i] else name
  }

  /** The stem of `base + ".pdf"` is `base`. */
  lemma StemOfPdf(base: string)
    requires base != ""
    ensures Stem(base + ".pdf") == base
  {
    var name := base + ".pdf";
    assert name[|base|] == '.';
    assert name[..|base|] == base;
  }

  function Record(name: string, info: PaperInfo): PaperRecord {
    PaperRecord(info.title, info.abstractText, info.figuresCount, info.links, name, Stem(name))
  }

  /** The records for `files`, in order; failed files contribute nothing. */
  function Processed(files: seq<string>, grobid: string -> Reply): (r: seq<PaperRecord>)
    ensures |r| <= |files|
  {
    if files == [] then []
    else
      var name := files[|files| - 1];
      Processed(files[..|files| - 1], grobid)
        + (match grobid(name)
           case Parsed(root) => [Record(name, Extract(root))]
           case Failed(_) => [])
  }

  /** `process_dataset` over the PDF files found, in enumeration order. The
      GROBID call is the parameter `grobid`. */
  method ProcessDataset(files: seq<string>, grobid: string -> Reply) returns (results: seq<PaperRecord>)
    ensures results == Processed(files, grobid)
  {
    results := [];
    for i := 0 to |files|
      invariant results == Processed(files[..i], grobid)
    {
      assert files[..i + 1][..i] == files[..i];
      var reply := grobid(files[i]);
      match reply {
        case Parsed(root) =>
          var info := ExtractPaperInfo(root);
          results := results + [Record(files[i], info)];
        case Failed(_) =>
      }
    }
    assert files[..|files|] == files;
  }

  /** The names of the files GROBID handled, in order. */
  function Succeeded(files: seq<string>, grobid: string -> Reply): (r: seq<string>)
    ensures forall name :: name in r ==> grobid(name).Parsed?
  {
    if files == [] then []
    else
      var name := files[|files| - 1];
      Succeeded(files[..|files| - 1], grobid) + (if grobid(name).Parsed? then [name] else [])
  }

  /** The batch keeps file order: processing a concatenation of two lists of
      files concatenates their results. */
  lemma {:induction false} ProcessedAppend(a: seq<string>, b: seq<string>, grobid: string -> Reply)
    ensures Processed(a + b, grobid) == Processed(a, grobid) + Processed(b, grobid)
    decreases |b|
  {
    if b == [] {
      assert a + b == a;
    } else {
      var n := |b| - 1;
      assert (a + b)[..|a + b| - 1] == a + b[..n];
      ProcessedAppend(a, b[..n], grobid);
    }
  }

  /** One result per successfully processed file. */
  lemma {:induction false} ProcessedLength(files: seq<string>, grobid: string -> Reply)
    ensures |Processed(files, grobid)| == |Succeeded(files, grobid)|
  {
    if files != [] {
      ProcessedLength(files[..|files| - 1], grobid);
    }
  }

  /** The k-th result is the record extracted from the TEI of the k-th
      successfully processed file, with that file's name as `filename` and
      its stem as `paper_id`. */
  lemma {:induction false} ProcessedAt(files: seq<string>, grobid: string -> Reply, k: nat)
    requires k < |Succeeded(files, grobid)|
    ensures k < |Processed(files, grobid)|
    ensures Processed(files, grobid)[k] == Record(Succeeded(files, grobid)[k], Extract(grobid(Succeeded(files, grobid)[k]).root))
    ensures Processed(files, grobid)[k].filename == Succeeded(files, grobid)[k]
    ensures Processed(files, grobid)[k].paperId == Stem(Succeeded(files, grobid)[k])
  {
    var n := |files| - 1;
    var name := files[n];
    ProcessedLength(files, grobid);
    ProcessedLength(files[..n], grobid);
    var S' := Succeeded(files[..n], grobid);
    if k < |S'| {
      ProcessedAt(files[..n], grobid, k);
    } else {
      assert grobid(name).Parsed?;
    }
  }

  /** A file is among those that succeeded exactly when GROBID parsed it. */
  lemma {:induction false} SucceededMember(files: seq<string>, grobid: string -> Reply, name: string)
    ensures name in Succeeded(files, grobid) <==> name in files && grobid(name).Parsed?
  {
    if files != [] {
      var n := |files| - 1;
      SucceededMember(files[..n], grobid, name);
      assert files == files[..n] + [files[n]];
    }
  }
}
