/**
 The data side of the visualisation helpers: the rows of the paper-links
 table (one row per link, the paper id only on a paper's first row, a
 placeholder for a paper without links) and the text the keyword cloud is
 drawn from. Drawing, figure sizes and styling are not modelled.
 */
module Utils {
  import opened Strings

  /** The link cell of a paper that has no links. */
  const NoLinks := "No links"

  /** One table row `[pid, link]`: the paper-id cell and the link cell (the
      two-element list of the table, as a record). */
  datatype Row = Row(id: string, link: string)

  /** One pair of `zip(paper_ids, paper_links)`. */
  datatype Paper = Paper(id: string, links: seq<string>)

  /** `zip(paper_ids, paper_links)`: pairs up to the end of the shorter
      list. */
  function Zip(ids: seq<string>, links: seq<seq<string>>): (r: seq<Paper>)
    ensures |r| == if |ids| < |links| then |ids| else |links|
    ensures forall k :: 0 <= k < |r| ==> r[k] == Paper(ids[k], links[k])
  {
    if ids == [] || links == [] then []
    else [Paper(ids[0], links[0])] + Zip(ids[1..], links[1..])
  }

  /** The rows one paper contributes to the table: `[pid, links[0]]` and
      then `["", link]` for each further link, in order; `[pid, "No links"]`
      when the paper has no links. */
  function PaperRows(pid: string, links: seq<string>): seq<Row> {
    if links == [] then [Row(pid, NoLinks)]
    else if |links| == 1 then [Row(pid, links[0])]
    else PaperRows(pid, links[..|links| - 1]) + [Row("", links[|links| - 1])]
  }

  /** The rows of a list of (id, links) pairs, paper after paper. */
  function Rows(papers: seq<Paper>): seq<Row> {
    if papers == [] then []
    else
      var last := papers[|papers| - 1];
      Rows(papers[..|papers| - 1]) + PaperRows(last.id, last.links)
  }

  /** The table body of `show_paper_links`. */
  function CellText(paperIds: seq<string>, paperLinks: seq<seq<string>>): seq<Row> {
    Rows(Zip(paperIds, paperLinks))
  }

  /** `show_paper_links`' construction of `cell_text`: the loop over the
      zipped papers. */
  method ShowPaperLinksCells(paperIds: seq<string>, paperLinks: seq<seq<string>>)
    returns (cellText: seq<Row>)
    ensures cellText == CellText(paperIds, paperLinks)
  {
    var papers := Zip(paperIds, paperLinks);
    cellText := [];
    for i := 0 to |papers|
      invariant cellText == Rows(papers[..i])
    {
      RowsPrefix(papers, i);
      cellText := AppendPaperRows(cellText, papers[i].id, papers[i].links);
    }
    assert papers[..|papers|] == papers;
  }

  /** The body of that loop for one paper: its first link with the id, then
      the remaining links with an empty id, or the placeholder row. */
  method AppendPaperRows(cellText: seq<Row>, pid: string, links: seq<string>)
    returns (r: seq<Row>)
    ensures r == cellText + PaperRows(pid, links)
  {
    if links != [] {
      r := cellText + [Row(pid, links[0])];
      var rest := links[1..];
      for j := 0 to |rest|
        invariant r == cellText + PaperRows(pid, links[..j + 1])
      {
        PaperRowsSnoc(pid, links, j + 1);
        r := r + [Row("", rest[j])];
      }
      assert links[..|rest| + 1] == links;
    } else {
      r := cellText + [Row(pid, NoLinks)];
    }
  }

  /** One more paper appends its rows. */
  lemma RowsSnoc(papers: seq<Paper>, p: Paper)
    ensures Rows(papers + [p]) == Rows(papers) + PaperRows(p.id, p.links)
  {
    assert (papers + [p])[..|papers|] == papers;
  }

  /** The rows of the first `i + 1` papers extend those of the first `i` by
      paper `i`'s rows. */
  lemma RowsPrefix(papers: seq<Paper>, i: nat)
    requires i < |papers|
    ensures Rows(papers[..i + 1]) == Rows(papers[..i]) + PaperRows(papers[i].id, papers[i].links)
  {
    assert papers[..i + 1][..i] == papers[..i];
  }

  /** One more link appends the row `["", link]`. */
  lemma PaperRowsSnoc(pid: string, links: seq<string>, j: nat)
    requires 0 < j < |links|
    ensures PaperRows(pid, links[..j + 1]) == PaperRows(pid, links[..j]) + [Row("", links[j])]
  {
    assert links[..j + 1][..j] == links[..j];
  }

  // ---------------------------------------------------------------------
  // Properties of the table
  // ---------------------------------------------------------------------

  /** How many rows a paper takes: one per link, and one for no links. */
  function Weight(links: seq<string>): nat {
    if links == [] then 1 else |links|
  }

  /** Sum of the weights of the papers. */
  function TotalRows(papers: seq<Paper>): nat {
    if papers == [] then 0
    else TotalRows(papers[..|papers| - 1]) + Weight(papers[|papers| - 1].links)
  }

  /** Row `j` of a paper: the id on the first row and `""` after it; the
      `j`-th link, or the placeholder when there are no links. */
  lemma {:induction false} PaperRowsAt(pid: string, links: seq<string>, j: nat)
    requires j < Weight(links)
    ensures |PaperRows(pid, links)| == Weight(links)
    ensures PaperRows(pid, links)[j] == Row(if j == 0 then pid else "", if links == [] then NoLinks else links[j])
  {
    if |links| > 1 {
      var n := |links| - 1;
      PaperRowsAt(pid, links[..n], if j < n then j else 0);
    }
  }

  /** The table keeps paper order: the rows of a concatenation of papers are
      the concatenation of their rows. */
  lemma {:induction false} RowsAppend(a: seq<Paper>, b: seq<Paper>)
    ensures Rows(a + b) == Rows(a) + Rows(b)
    decreases |b|
  {
    if b == [] {
      assert a + b == a;
    } else {
      var n := |b| - 1;
      assert a + b == (a + b[..n]) + [b[n]];
      assert b == b[..n] + [b[n]];
      RowsSnoc(a + b[..n], b[n]);
      RowsSnoc(b[..n], b[n]);
      RowsAppend(a, b[..n]);
    }
  }

  /** The table has one row per link, and one per paper without links. */
  lemma {:induction false} RowsCount(papers: seq<Paper>)
    ensures |Rows(papers)| == TotalRows(papers)
  {
    if papers != [] {
      var last := papers[|papers| - 1];
      RowsCount(papers[..|papers| - 1]);
      PaperRowsAt(last.id, last.links, 0);
    }
  }

  /** Paper `k`'s rows form one block, placed after the rows of the papers
      before it. */
  lemma PaperBlock(papers: seq<Paper>, k: nat)
    requires k < |papers|
    ensures Rows(papers) == Rows(papers[..k]) + PaperRows(papers[k].id, papers[k].links) + Rows(papers[k + 1..])
  {
    assert papers == papers[..k + 1] + papers[k + 1..];
    RowsAppend(papers[..k + 1], papers[k + 1..]);
    RowsPrefix(papers, k);
  }

  /** Every link of every paper is in the table: link `j` of paper `k` is row
      `TotalRows(papers[..k]) + j`, with the paper id on the paper's first row
      only; a paper without links has its placeholder row there. */
  lemma RowOfLink(papers: seq<Paper>, k: nat, j: nat)
    requires k < |papers| && j < Weight(papers[k].links)
    ensures TotalRows(papers[..k]) + j < |Rows(papers)|
    ensures Rows(papers)[TotalRows(papers[..k]) + j]
         == Row(if j == 0 then papers[k].id else "", if papers[k].links == [] then NoLinks else papers[k].links[j])
  {
    var p := papers[k];
    PaperRowsAt(p.id, p.links, j);
    RowsCount(papers[..k]);
    BlockAt(papers, k, j);
  }

  /** Row `j` of paper `k`'s block, read in the whole table. */
  lemma BlockAt(papers: seq<Paper>, k: nat, j: nat)
    requires k < |papers| && j < |PaperRows(papers[k].id, papers[k].links)|
    ensures |Rows(papers[..k])| + j < |Rows(papers)|
    ensures Rows(papers)[|Rows(papers[..k])| + j] == PaperRows(papers[k].id, papers[k].links)[j]
  {
    PaperBlock(papers, k);
  }

  /** `zip` truncates: only the first `min(len(paper_ids), len(paper_links))`
      papers produce rows. */
  lemma CellTextTruncates(paperIds: seq<string>, paperLinks: seq<seq<string>>, n: nat)
    requires n == if |paperIds| < |paperLinks| then |paperIds| else |paperLinks|
    ensures CellText(paperIds, paperLinks) == CellText(paperIds[..n], paperLinks[..n])
  {
    assert Zip(paperIds, paperLinks) == Zip(paperIds[..n], paperLinks[..n]);
  }

  // ---------------------------------------------------------------------
  // Keyword text
  // ---------------------------------------------------------------------

  /** `' '.join(abstracts)`: the text the keyword cloud is drawn from. */
  function KeywordText(abstracts: seq<string>): string {
    Join(" ", abstracts)
  }

  /** The keyword text is empty without abstracts; otherwise it is as long
      as the abstracts plus one space between each two. */
  lemma KeywordTextLength(abstracts: seq<string>)
    ensures abstracts == [] ==> KeywordText(abstracts) == ""
    ensures abstracts != [] ==> |KeywordText(abstracts)| == TotalLength(abstracts) + |abstracts| - 1
  {
    if abstracts != [] {
      JoinLength(" ", abstracts);
    }
  }

  /** One more abstract extends the keyword text by a space and that
      abstract. */
  lemma KeywordTextAppend(abstracts: seq<string>, a: string)
    requires abstracts != []
    ensures KeywordText(abstracts + [a]) == KeywordText(abstracts) + " " + a
  {
    JoinAppend(" ", abstracts, [a]);
  }
}
