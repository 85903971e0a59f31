/** `PDFtoCSVExtractor.extract_from_pdf`: one pass over the pages of an open
    document, collecting the non-empty tables and the non-empty page texts.
    The document is given as the sequence of what pdfplumber reports for
    each page. */
module Extractor {
  import opened Wrappers

  /** A table cell as pdfplumber reports it: text, or None for an empty cell. */
  type Cell = Option<string>
  type Row = seq<Cell>
  type RawTable = seq<Row>

  /** One page: the result of `extract_tables()` and of `extract_text()`. */
  datatype Page = Page(tables: seq<RawTable>, text: Option<string>)

  /** Python truthiness of the text `extract_text()` returned. */
  predicate HasText(t: Option<string>) {
    t.Some? && t.value != ""
  }

  /** The page contributes no table. */
  predicate NoTables(p: Page) {
    forall j :: 0 <= j < |p.tables| ==> p.tables[j] == []
  }

  /** The non-empty tables of one page, in their order on the page. */
  function KeptTables(ts: seq<RawTable>): (r: seq<RawTable>)
    ensures |r| <= |ts|
    ensures forall t :: t in r <==> t in ts && t != []
  {
    if |ts| == 0 then []
    else (if ts[0] != [] then [ts[0]] else []) + KeptTables(ts[1..])
  }

  /** Every non-empty table of the document, by page and then by position. */
  function Tables(pages: seq<Page>): seq<RawTable> {
    if |pages| == 0 then [] else KeptTables(pages[0].tables) + Tables(pages[1..])
  }

  /** A table is collected exactly when it is non-empty and on some page. */
  lemma {:induction false} TablesContents(pages: seq<Page>)
    ensures forall t :: t in Tables(pages) <==>
      t != [] && exists i :: 0 <= i < |pages| && t in pages[i].tables
  {
    if |pages| > 0 {
      TablesContents(pages[1..]);
      assert forall i :: 0 < i < |pages| ==> pages[i] == pages[1..][i - 1];
    }
  }

  /** Every non-empty page text of the document, in page order. */
  function Texts(pages: seq<Page>): seq<string> {
    if |pages| == 0 then []
    else (if HasText(pages[0].text) then [pages[0].text.value] else []) + Texts(pages[1..])
  }

  /** A text is collected exactly when it is non-empty and some page's
      text; there is at most one per page. */
  lemma {:induction false} TextsContents(pages: seq<Page>)
    ensures |Texts(pages)| <= |pages|
    ensures forall x :: x in Texts(pages) <==>
      x != "" && exists i :: 0 <= i < |pages| && pages[i].text == Some(x)
  {
    if |pages| > 0 {
      TextsContents(pages[1..]);
      assert forall i :: 0 < i < |pages| ==> pages[i] == pages[1..][i - 1];
    }
  }

  lemma {:induction false} KeptTablesAppend(a: seq<RawTable>, b: seq<RawTable>)
    ensures KeptTables(a + b) == KeptTables(a) + KeptTables(b)
    decreases |a|
  {
    if |a| == 0 {
      assert a + b == b;
    } else {
      assert (a + b)[1..] == a[1..] + b;
      KeptTablesAppend(a[1..], b);
    }
  }

  /** Extracting two page runs one after the other concatenates the tables. */
  lemma {:induction false} TablesAppend(p: seq<Page>, q: seq<Page>)
    ensures Tables(p + q) == Tables(p) + Tables(q)
    decreases |p|
  {
    if |p| == 0 {
      assert p + q == q;
    } else {
      assert (p + q)[1..] == p[1..] + q;
      TablesAppend(p[1..], q);
    }
  }

  /** Likewise for the texts. */
  lemma {:induction false} TextsAppend(p: seq<Page>, q: seq<Page>)
    ensures Texts(p + q) == Texts(p) + Texts(q)
    decreases |p|
  {
    if |p| == 0 {
      assert p + q == q;
    } else {
      assert (p + q)[1..] == p[1..] + q;
      TextsAppend(p[1..], q);
    }
  }

  /** The inner loop of `extract_from_pdf`: appends a page's non-empty
      tables, in order. */
  method AppendKeptTables(tables: seq<RawTable>, pageTables: seq<RawTable>) returns (r: seq<RawTable>)
    ensures r == tables + KeptTables(pageTables)
  {
    r := tables;
    var j := 0;
    while j < |pageTables|
      invariant 0 <= j <= |pageTables|
      invariant r == tables + KeptTables(pageTables[..j])
    {
      if pageTables[j] != [] {
        r := r + [pageTables[j]];
      }
      assert pageTables[..j + 1] == pageTables[..j] + [pageTables[j]];
      KeptTablesAppend(pageTables[..j], [pageTables[j]]);
      j := j + 1;
    }
    assert pageTables[..j] == pageTables;
  }

  /** `extract_from_pdf`: the page loop of pdf_extractor.py. */
  method ExtractFromPdf(pages: seq<Page>) returns (tables: seq<RawTable>, texts: seq<string>)
    ensures tables == Tables(pages)
    ensures texts == Texts(pages)
  {
    tables := [];
    texts := [];
    var i := 0;
    while i < |pages|
      invariant 0 <= i <= |pages|
      invariant tables == Tables(pages[..i])
      invariant texts == Texts(pages[..i])
    {
      var page := pages[i];
      if page.tables != [] {
        tables := AppendKeptTables(tables, page.tables);
      }
      if HasText(page.text) {
        texts := texts + [page.text.value];
      }
      assert pages[..i + 1] == pages[..i] + [page];
      TablesAppend(pages[..i], [page]);
      TextsAppend(pages[..i], [page]);
      i := i + 1;
    }
    assert pages[..i] == pages;
  }

  /** The table at position `j` of page `i` is the first one kept. */
  ghost predicate FirstTableAt(pages: seq<Page>, i: int, j: int) {
    && 0 <= i < |pages| && 0 <= j < |pages[i].tables|
    && pages[i].tables[j] != []
    && (forall k :: 0 <= k < i ==> NoTables(pages[k]))
    && (forall m :: 0 <= m < j ==> pages[i].tables[m] == [])
  }

  /** Page `i` holds the first non-empty text. */
  ghost predicate FirstTextAt(pages: seq<Page>, i: int) {
    && 0 <= i < |pages|
    && HasText(pages[i].text)
    && (forall k :: 0 <= k < i ==> !HasText(pages[k].text))
  }

  lemma {:induction false} FirstKeptTable(ts: seq<RawTable>)
    requires KeptTables(ts) != []
    ensures exists j :: 0 <= j < |ts| && ts[j] != [] && KeptTables(ts)[0] == ts[j]
                        && forall m :: 0 <= m < j ==> ts[m] == []
  {
    if ts[0] == [] {
      FirstKeptTable(ts[1..]);
      var j :| 0 <= j < |ts[1..]| && ts[1..][j] != [] && KeptTables(ts[1..])[0] == ts[1..][j]
               && forall m :: 0 <= m < j ==> ts[1..][m] == [];
      assert forall m :: 0 < m < j + 1 ==> ts[m] == ts[1..][m - 1];
    }
  }

  /** The table list is empty exactly when no page has a non-empty table. */
  lemma TablesEmptyIff(pages: seq<Page>)
    ensures Tables(pages) == [] <==> forall i :: 0 <= i < |pages| ==> NoTables(pages[i])
  {
    TablesContents(pages);
    if Tables(pages) != [] {
      assert Tables(pages)[0] in Tables(pages);
    }
    if exists i :: 0 <= i < |pages| && !NoTables(pages[i]) {
      var i :| 0 <= i < |pages| && !NoTables(pages[i]);
      var j :| 0 <= j < |pages[i].tables| && pages[i].tables[j] != [];
      assert pages[i].tables[j] in Tables(pages);
    }
  }

  /** The table `clean_and_convert` uses is the first non-empty table of the
      first page that has one. */
  lemma {:induction false} FirstTable(pages: seq<Page>)
    requires Tables(pages) != []
    ensures exists i, j :: FirstTableAt(pages, i, j) && Tables(pages)[0] == pages[i].tables[j]
  {
    var kept := KeptTables(pages[0].tables);
    if kept != [] {
      FirstKeptTable(pages[0].tables);
      var j :| 0 <= j < |pages[0].tables| && pages[0].tables[j] != [] && kept[0] == pages[0].tables[j]
               && forall m :: 0 <= m < j ==> pages[0].tables[m] == [];
      assert FirstTableAt(pages, 0, j);
    } else {
      assert NoTables(pages[0]) by {
        forall j | 0 <= j < |pages[0].tables| ensures pages[0].tables[j] == [] {
          assert pages[0].tables[j] in pages[0].tables;
        }
      }
      FirstTable(pages[1..]);
      var i, j :| FirstTableAt(pages[1..], i, j) && Tables(pages[1..])[0] == pages[1..][i].tables[j];
      assert forall k :: 0 < k < i + 1 ==> pages[k] == pages[1..][k - 1];
      assert FirstTableAt(pages, i + 1, j);
    }
  }

  /** The text the fallback uses is that of the first page with non-empty
      text, which need not be the first page. */
  lemma {:induction false} FirstText(pages: seq<Page>)
    requires Texts(pages) != []
    ensures exists i :: FirstTextAt(pages, i) && Texts(pages)[0] == pages[i].text.value
  {
    if HasText(pages[0].text) {
      assert FirstTextAt(pages, 0);
    } else {
      FirstText(pages[1..]);
      var i :| FirstTextAt(pages[1..], i) && Texts(pages[1..])[0] == pages[1..][i].text.value;
      assert forall k :: 0 < k < i + 1 ==> pages[k] == pages[1..][k - 1];
      assert FirstTextAt(pages, i + 1);
    }
  }

  /** The text list is empty exactly when no page has non-empty text. */
  lemma TextsEmptyIff(pages: seq<Page>)
    ensures Texts(pages) == [] <==> forall i :: 0 <= i < |pages| ==> !HasText(pages[i].text)
  {
    TextsContents(pages);
    if Texts(pages) != [] {
      assert Texts(pages)[0] in Texts(pages);
    }
    if exists i :: 0 <= i < |pages| && HasText(pages[i].text) {
      var i :| 0 <= i < |pages| && HasText(pages[i].text);
      assert pages[i].text.value in Texts(pages);
    }
  }
}
